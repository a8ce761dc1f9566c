/** The distance alphabet (src/shared/distance.rs) and the split of a distance code into a symbol
    and extra bits (src/shared/command.rs). */
module Distances {
  import opened Bits

  const MAX_NPOSTFIX := 3
  const MAX_NDIRECT := 120
  const NUM_DISTANCE_SHORT_CODES := 16
  const MAX_DISTANCE_BITS := 24
  const LARGE_MAX_DISTANCE_BITS := 62
  const MAX_ALLOWED_DISTANCE: nat := 0x7FFF_FFFC
  const NUM_HISTOGRAM_DISTANCE_SYMBOLS := 544

  /** The parameters the format can express: NDIRECT is a four-bit field shifted by NPOSTFIX. */
  predicate Legal(postfixBits: nat, numDirect: nat) {
    postfixBits <= MAX_NPOSTFIX && Low(numDirect, postfixBits) == 0 && Shr(numDirect, postfixBits) < 16
  }

  lemma LegalDirect(postfixBits: nat, numDirect: nat)
    requires Legal(postfixBits, numDirect)
    ensures numDirect <= MAX_NDIRECT
    ensures numDirect == Shl(Shr(numDirect, postfixBits), postfixBits)
  {
    LowShr(numDirect, postfixBits);
    ShlMonotone(Shr(numDirect, postfixBits), 15, postfixBits);
    ShlTimes(15, postfixBits);
  }

  datatype DistanceParams = DistanceParams(
    postfixBits: nat, numDirect: nat, alphabetSizeMax: nat, alphabetSizeLimit: nat, maxDistance: nat)

  // ------------------------------------------------------------ symbol and extra bits

  /** A distance symbol, its number of extra bits, and their value. */
  datatype Split = Split(symbol: nat, nbits: nat, extra: nat)

  /** `prefix_encode_copy_distance`, before symbol and bit count are packed into sixteen bits. */
  function PrefixSplit(distanceCode: nat, numDirect: nat, postfixBits: nat): Split {
    var first := NUM_DISTANCE_SHORT_CODES + numDirect;
    if distanceCode < first then Split(distanceCode, 0, 0)
    else
      SplitInterleaved(Pow2(postfixBits + 2) + (distanceCode - first), first, postfixBits)
  }

  function SplitInterleaved(dist: nat, first: nat, postfixBits: nat): Split
    requires dist >= Pow2(postfixBits + 2)
  {
    BucketRange(dist, postfixBits);
    var bucket := Log2(dist) - 1;
    var postfix := Low(dist, postfixBits);
    var prefix := Shr(dist, bucket) % 2;
    LeadingBits(dist, bucket);
    var offset := Shl(2 + prefix, bucket);
    var nbits := bucket - postfixBits;
    Split(first + Shl(2 * (nbits - 1) + prefix, postfixBits) + postfix, nbits, Shr(dist - offset, postfixBits))
  }

  /** `(code as u16, extra as u32)`: the bit count in the top six bits, the symbol in the low ten. */
  function PrefixEncodeCopyDistance(distanceCode: nat, numDirect: nat, postfixBits: nat): (nat, nat) {
    var s := PrefixSplit(distanceCode, numDirect, postfixBits);
    (BitOr(Shl(s.nbits, 10), s.symbol) % U16, s.extra % U32)
  }

  lemma BucketRange(dist: nat, postfixBits: nat)
    requires dist >= Pow2(postfixBits + 2)
    ensures Log2(dist) >= postfixBits + 2
  {
    var l := Log2(dist);
    if l < postfixBits + 2 { Pow2Monotone(l + 1, postfixBits + 2); }
  }

  /** The two leading bits of a value: `dist == (2 + prefix) << bucket + tail`. */
  lemma LeadingBits(dist: nat, bucket: nat)
    requires dist > 0 && Log2(dist) == bucket + 1
    ensures Shr(dist, bucket) == 2 + Shr(dist, bucket) % 2
    ensures dist == Shl(2 + Shr(dist, bucket) % 2, bucket) + Low(dist, bucket)
  {
    LowShr(dist, bucket);
    LowBound(dist, bucket);
    var top := Shr(dist, bucket);
    ShlPow2(0, bucket);
    ShlPow2(1, bucket);
    ShlPow2(2, bucket);
    if top < 2 { ShlMonotone(top, 1, bucket); }
    if top >= 4 { ShlMonotone(4, top, bucket); }
  }

  // -------------------------------------------------------------- RFC 7932, section 4

  /** The number of extra bits a symbol carries. */
  function ExtraBits(symbol: nat, numDirect: nat, postfixBits: nat): nat {
    if symbol < NUM_DISTANCE_SHORT_CODES + numDirect then 0
    else 1 + Shr(symbol - numDirect - NUM_DISTANCE_SHORT_CODES, postfixBits + 1)
  }

  /** The distance a symbol past the sixteen short codes denotes. */
  function Distance(symbol: nat, extra: nat, numDirect: nat, postfixBits: nat): int
    requires symbol >= NUM_DISTANCE_SHORT_CODES
  {
    if symbol < NUM_DISTANCE_SHORT_CODES + numDirect then symbol - NUM_DISTANCE_SHORT_CODES + 1
    else
      var base := symbol - numDirect - NUM_DISTANCE_SHORT_CODES;
      var hcode := Shr(base, postfixBits);
      var lcode := Low(base, postfixBits);
      var offset := Shl(2 + hcode % 2, ExtraBits(symbol, numDirect, postfixBits)) as int - 4;
      HighOffset(hcode, ExtraBits(symbol, numDirect, postfixBits));
      Shl((offset + extra) as nat, postfixBits) + lcode + numDirect + 1
  }

  lemma HighOffset(hcode: nat, nbits: nat)
    ensures nbits >= 1 ==> Shl(2 + hcode % 2, nbits) >= 4
  {
    if nbits >= 1 {
      ShlMonotone(2, 2 + hcode % 2, nbits);
      ShlPow2(1, nbits);
      Pow2Monotone(2, 1 + nbits);
    }
  }

  // ------------------------------------------------------------------- both directions

  /** A distance interleaved by `postfixBits`: the leading bits `2 + prefix`, `nbits` extra bits
      below them, and the postfix. */
  ghost predicate Shape(dist: nat, nbits: nat, prefix: nat, extra: nat, postfix: nat, postfixBits: nat) {
    && nbits >= 1 && prefix < 2 && extra < Pow2(nbits) && postfix < Pow2(postfixBits)
    && dist == Shl(Shl(2 + prefix, nbits) + extra, postfixBits) + postfix
  }

  ghost function GroupSymbol(nbits: nat, prefix: nat, postfix: nat, numDirect: nat, postfixBits: nat): nat
    requires nbits >= 1
  {
    NUM_DISTANCE_SHORT_CODES + numDirect + Shl(2 * (nbits - 1) + prefix, postfixBits) + postfix
  }

  /** What the encoder's shifts take apart is a shape. */
  lemma SplitShape(dist: nat, numDirect: nat, postfixBits: nat) returns (prefix: nat, postfix: nat)
    requires dist >= Pow2(postfixBits + 2)
    ensures var s := SplitInterleaved(dist, NUM_DISTANCE_SHORT_CODES + numDirect, postfixBits);
            && Shape(dist, s.nbits, prefix, s.extra, postfix, postfixBits)
            && s.symbol == GroupSymbol(s.nbits, prefix, postfix, numDirect, postfixBits)
  {
    hide Pow2, Shl, Shr, Low, BitOr, BitAnd, Log2;
    BucketRange(dist, postfixBits);
    var bucket := Log2(dist) - 1;
    LeadingBits(dist, bucket);
    prefix, postfix := Shr(dist, bucket) % 2, Low(dist, postfixBits);
    TailFields(dist, bucket, 2 + prefix, postfixBits);
  }

  lemma TailFields(dist: nat, bucket: nat, head: nat, postfixBits: nat)
    requires postfixBits <= bucket && dist == Shl(head, bucket) + Low(dist, bucket)
    ensures var extra := Shr(Low(dist, bucket), postfixBits);
            && extra < Pow2(bucket - postfixBits) && Low(dist, postfixBits) < Pow2(postfixBits)
            && dist == Shl(Shl(head, bucket - postfixBits) + extra, postfixBits) + Low(dist, postfixBits)
  {
    hide Pow2, Shl, Shr, Low, BitOr, BitAnd, Log2;
    var tail := Low(dist, bucket);
    LowBound(dist, postfixBits);
    LowBound(dist, bucket);
    LowOfLow(dist, postfixBits, bucket);
    LowShr(tail, postfixBits);
    ShrBound(tail, postfixBits, bucket - postfixBits);
    ShlShl(head, bucket - postfixBits, postfixBits);
    ShlAdd(Shl(head, bucket - postfixBits), Shr(tail, postfixBits), postfixBits);
  }

  lemma {:induction false} LowOfLow(v: nat, a: nat, b: nat)
    requires a <= b
    ensures Low(Low(v, b), a) == Low(v, a)
  {
    if a > 0 { LowOfLow(v / 2, a - 1, b - 1); }
  }

  /** A shape determines what the encoder computes from the value. */
  lemma ShapeSplits(dist: nat, nbits: nat, prefix: nat, extra: nat, postfix: nat, numDirect: nat, postfixBits: nat)
    requires Shape(dist, nbits, prefix, extra, postfix, postfixBits) && dist >= Pow2(postfixBits + 2)
    ensures SplitInterleaved(dist, NUM_DISTANCE_SHORT_CODES + numDirect, postfixBits)
         == Split(GroupSymbol(nbits, prefix, postfix, numDirect, postfixBits), nbits, extra)
  {
    hide Pow2, Shl, Shr, Low, BitOr, BitAnd, Log2, SplitInterleaved;
    var tail := ShapeBucket(dist, nbits, prefix, extra, postfix, postfixBits);
    assert Shr(dist, nbits + postfixBits) == 2 + prefix by { Compose(tail, 2 + prefix, nbits + postfixBits); }
    assert Low(dist, postfixBits) == postfix by { Compose(postfix, Shl(2 + prefix, nbits) + extra, postfixBits); }
    assert Shr(tail, postfixBits) == extra by { Compose(postfix, extra, postfixBits); }
    SplitOf(dist, nbits + postfixBits, tail, prefix, NUM_DISTANCE_SHORT_CODES + numDirect, postfixBits);
  }

  lemma SplitOf(dist: nat, bucket: nat, tail: nat, prefix: nat, first: nat, postfixBits: nat)
    requires dist >= Pow2(postfixBits + 2) && Log2(dist) == bucket + 1 && bucket > postfixBits
    requires prefix < 2 && Shr(dist, bucket) == 2 + prefix && dist == tail + Shl(2 + prefix, bucket)
    ensures SplitInterleaved(dist, first, postfixBits)
         == Split(first + Shl(2 * (bucket - postfixBits - 1) + prefix, postfixBits) + Low(dist, postfixBits),
                  bucket - postfixBits, Shr(tail, postfixBits))
  {
    hide Pow2, Shl, Shr, Low, BitOr, BitAnd, Log2;
    assert (2 + prefix) % 2 == prefix;
  }

  lemma ShapeBucket(dist: nat, nbits: nat, prefix: nat, extra: nat, postfix: nat, postfixBits: nat) returns (tail: nat)
    requires Shape(dist, nbits, prefix, extra, postfix, postfixBits)
    ensures tail == Shl(extra, postfixBits) + postfix
    ensures dist == tail + Shl(2 + prefix, nbits + postfixBits) && tail < Pow2(nbits + postfixBits)
    ensures dist > 0 && Log2(dist) == nbits + postfixBits + 1
  {
    hide Shl, Shr, Low, Log2;
    var bucket := nbits + postfixBits;
    tail := Shl(extra, postfixBits) + postfix;
    ShlShl(2 + prefix, nbits, postfixBits);
    ShlAdd(Shl(2 + prefix, nbits), extra, postfixBits);
    ShlMonotone(extra, Pow2(nbits), postfixBits);
    ShlPow2(nbits, postfixBits);
    ShlPow2(1, bucket);
    ShlPow2(0, bucket);
    ShlAdd(2, prefix, bucket);
    ShlZero(bucket);
    Log2Unique(dist, bucket + 1);
  }

  /** The symbol of a group takes apart into the fields the decoder reads. */
  lemma SymbolFields(nbits: nat, prefix: nat, postfix: nat, numDirect: nat, postfixBits: nat)
    requires nbits >= 1 && prefix < 2 && postfix < Pow2(postfixBits)
    ensures var symbol := GroupSymbol(nbits, prefix, postfix, numDirect, postfixBits);
            var base := symbol - numDirect - NUM_DISTANCE_SHORT_CODES;
            && Low(base, postfixBits) == postfix
            && Shr(base, postfixBits) == 2 * (nbits - 1) + prefix
            && ExtraBits(symbol, numDirect, postfixBits) == nbits
  {
    hide Shl, Low, Log2, Pow2;
    var group := 2 * (nbits - 1) + prefix;
    Compose(postfix, group, postfixBits);
    var base := Shl(group, postfixBits) + postfix;
    ShrShr(base, postfixBits, 1);
    assert Shr(group, 1) == group / 2;
  }

  /** Every symbol past the direct codes belongs to a group. */
  lemma SymbolGroup(symbol: nat, numDirect: nat, postfixBits: nat) returns (nbits: nat, prefix: nat, postfix: nat)
    requires symbol >= NUM_DISTANCE_SHORT_CODES + numDirect
    ensures nbits >= 1 && prefix < 2 && postfix < Pow2(postfixBits)
    ensures symbol == GroupSymbol(nbits, prefix, postfix, numDirect, postfixBits)
  {
    hide Shl, Low, Log2, Pow2;
    var base := symbol - numDirect - NUM_DISTANCE_SHORT_CODES;
    var group := Shr(base, postfixBits);
    nbits, prefix, postfix := 1 + group / 2, group % 2, Low(base, postfixBits);
    LowShr(base, postfixBits);
    LowBound(base, postfixBits);
  }

  /** The distance of a group's symbol, and that it has the shape of the group. */
  lemma GroupDistance(nbits: nat, prefix: nat, extra: nat, postfix: nat, numDirect: nat, postfixBits: nat)
    requires nbits >= 1 && prefix < 2 && extra < Pow2(nbits) && postfix < Pow2(postfixBits)
    ensures var symbol := GroupSymbol(nbits, prefix, postfix, numDirect, postfixBits);
            var dist := Shl(Shl(2 + prefix, nbits) + extra, postfixBits) + postfix;
            && Distance(symbol, extra, numDirect, postfixBits) == dist - Pow2(postfixBits + 2) + numDirect + 1
            && dist >= Pow2(postfixBits + 2)
  {
    hide Shl, Shr, Low, Log2, ExtraBits;
    SymbolFields(nbits, prefix, postfix, numDirect, postfixBits);
    var hcode := 2 * (nbits - 1) + prefix;
    assert hcode % 2 == prefix;
    HighOffset(hcode, nbits);
    ShlAdd(Shl(2 + prefix, nbits) - 4 + extra, 4, postfixBits);
    ShlPow2(2, postfixBits);
  }

  /** Encoding then decoding: for every parameters and every distance code past the short ones,
      the symbol and extra bits denote the distance the code stands for. */
  lemma SplitDenotesDistance(distanceCode: nat, numDirect: nat, postfixBits: nat)
    requires distanceCode >= NUM_DISTANCE_SHORT_CODES
    ensures var s := PrefixSplit(distanceCode, numDirect, postfixBits);
            && s.symbol >= NUM_DISTANCE_SHORT_CODES
            && s.nbits == ExtraBits(s.symbol, numDirect, postfixBits)
            && s.extra < Pow2(s.nbits)
            && Distance(s.symbol, s.extra, numDirect, postfixBits) == distanceCode - (NUM_DISTANCE_SHORT_CODES - 1)
  {
    hide Pow2, Shl, Shr, Low, BitOr, BitAnd, Log2, SplitInterleaved;
    if distanceCode >= NUM_DISTANCE_SHORT_CODES + numDirect {
      var s := PrefixSplit(distanceCode, numDirect, postfixBits);
      var dist := Pow2(postfixBits + 2) + (distanceCode - NUM_DISTANCE_SHORT_CODES - numDirect);
      var prefix, postfix := SplitShape(dist, numDirect, postfixBits);
      SymbolFields(s.nbits, prefix, postfix, numDirect, postfixBits);
      GroupDistance(s.nbits, prefix, s.extra, postfix, numDirect, postfixBits);
    }
  }

  /** Decoding then encoding: every symbol with extra bits that fit it is the split of exactly the
      distance it denotes, so no two symbols share a distance. */
  lemma DistanceDeterminesSplit(symbol: nat, extra: nat, numDirect: nat, postfixBits: nat)
    requires symbol >= NUM_DISTANCE_SHORT_CODES && extra < Pow2(ExtraBits(symbol, numDirect, postfixBits))
    ensures var d := Distance(symbol, extra, numDirect, postfixBits);
            && d >= 1
            && PrefixSplit(d + (NUM_DISTANCE_SHORT_CODES - 1), numDirect, postfixBits)
               == Split(symbol, ExtraBits(symbol, numDirect, postfixBits), extra)
  {
    hide Shl, Shr, Low, BitOr, BitAnd, Log2, SplitInterleaved;
    if symbol >= NUM_DISTANCE_SHORT_CODES + numDirect {
      var nbits, prefix, postfix := SymbolGroup(symbol, numDirect, postfixBits);
      SymbolFields(nbits, prefix, postfix, numDirect, postfixBits);
      GroupDistance(nbits, prefix, extra, postfix, numDirect, postfixBits);
      ShapeSplits(Shl(Shl(2 + prefix, nbits) + extra, postfixBits) + postfix, nbits, prefix, extra, postfix, numDirect,
                  postfixBits);
    }
  }

  // --------------------------------------------------------- packing and restoring codes

  /** The packed pair gives back symbol and bit count when both fit their fields. */
  lemma PackedFields(s: Split)
    requires s.symbol < 1024 && s.nbits < 64
    ensures var code := BitOr(Shl(s.nbits, 10), s.symbol) % U16;
            Low(code, 10) == s.symbol && Shr(code, 10) == s.nbits
  {
    hide Shl, Shr, Low, BitOr, Log2;
    var code := BitOr(Shl(s.nbits, 10), s.symbol);
    Pow2Values();
    assert code == s.symbol + Shl(s.nbits, 10) by {
      BitOrCommutes(Shl(s.nbits, 10), s.symbol);
      BitOrDisjoint(10, s.symbol, s.nbits);
    }
    assert Shl(s.nbits, 10) <= 63 * 1024 by { ShlTimes(s.nbits, 10); }
    assert code % U16 == code;
    Compose(s.symbol, s.nbits, 10);
  }

  /** `restore_distance_code`; a code past the direct ones carries at least one extra bit, which
      keeps the subtraction in range. What that shuts out is a prefix such as the sixteen of an
      insert-only command without direct codes: it has no extra bits, and the program's 32-bit
      `((2 + 0) << 0) - 4` would go below zero. */
  function RestoreDistanceCode(distPrefix: nat, distExtra: nat, numDirect: nat, postfixBits: nat): nat
    requires Low(distPrefix, 10) >= NUM_DISTANCE_SHORT_CODES + numDirect ==> Shr(distPrefix, 10) >= 1
  {
    var dcode := Low(distPrefix, 10);
    if dcode < NUM_DISTANCE_SHORT_CODES + numDirect then dcode
    else
      var nbits := Shr(distPrefix, 10);
      var base := dcode - numDirect - NUM_DISTANCE_SHORT_CODES;
      var hcode := Shr(base, postfixBits);
      var lcode := Low(base, postfixBits);
      HighOffset(hcode, nbits);
      var offset := Shl(2 + hcode % 2, nbits) - 4;
      Shl(offset + distExtra, postfixBits) + lcode + numDirect + NUM_DISTANCE_SHORT_CODES
  }

  /** Encoding, packing and restoring is the identity on every code whose symbol fits ten bits. */
  lemma RestoreInvertsEncode(distanceCode: nat, numDirect: nat, postfixBits: nat)
    requires var s := PrefixSplit(distanceCode, numDirect, postfixBits);
             s.symbol < 1024 && s.nbits < 64 && s.extra < U32
    ensures var (prefix, extra) := PrefixEncodeCopyDistance(distanceCode, numDirect, postfixBits);
            && (Low(prefix, 10) >= NUM_DISTANCE_SHORT_CODES + numDirect ==> Shr(prefix, 10) >= 1)
            && RestoreDistanceCode(prefix, extra, numDirect, postfixBits) == distanceCode
  {
    hide Pow2, Shl, Shr, Low, BitOr, BitAnd, Log2, SplitInterleaved;
    var s := PrefixSplit(distanceCode, numDirect, postfixBits);
    PackedFields(s);
    if distanceCode >= NUM_DISTANCE_SHORT_CODES { SplitDenotesDistance(distanceCode, numDirect, postfixBits); }
  }

  // ------------------------------------------------------------------ where groups begin

  /** Symbols past the direct codes come in groups of `1 << postfixBits`; group `g` covers the
      interleaved values from `GroupStart(g)` up to `GroupStart(g + 1)`. */
  ghost function GroupStart(g: nat, postfixBits: nat): nat {
    Shl(2 + g % 2, 1 + g / 2 + postfixBits)
  }

  lemma GroupStartNext(g: nat, postfixBits: nat)
    ensures GroupStart(g + 1, postfixBits) == GroupStart(g, postfixBits) + Pow2(1 + g / 2 + postfixBits)
  {
    hide Shr, Low, Log2;
    var b := 1 + g / 2 + postfixBits;
    ShlPow2(0, b);
    if g % 2 == 0 {
      assert (g + 1) / 2 == g / 2 && (g + 1) % 2 == 1;
      ShlAdd(2, 1, b);
    } else {
      assert (g + 1) / 2 == g / 2 + 1 && (g + 1) % 2 == 0;
      ShlAdd(3, 1, b);
      ShlDouble(2, b);
    }
  }

  lemma {:induction false} GroupStartMonotone(g: nat, h: nat, postfixBits: nat)
    requires g <= h
    ensures GroupStart(g, postfixBits) <= GroupStart(h, postfixBits)
    decreases h - g
  {
    if g < h {
      GroupStartNext(g, postfixBits);
      GroupStartMonotone(g + 1, h, postfixBits);
    }
  }

  /** The values a shape can take lie inside its group. */
  lemma ShapeInGroup(dist: nat, nbits: nat, prefix: nat, extra: nat, postfix: nat, postfixBits: nat)
    requires Shape(dist, nbits, prefix, extra, postfix, postfixBits)
    ensures var g := 2 * (nbits - 1) + prefix;
            GroupStart(g, postfixBits) <= dist < GroupStart(g + 1, postfixBits)
  {
    hide Pow2, Shl, Shr, Low, BitOr, BitAnd, Log2;
    var g := 2 * (nbits - 1) + prefix;
    var tail := ShapeBucket(dist, nbits, prefix, extra, postfix, postfixBits);
    assert g % 2 == prefix && 1 + g / 2 + postfixBits == nbits + postfixBits;
    GroupStartNext(g, postfixBits);
  }

  /** An alphabet cut after `groups` whole groups holds exactly the codes below that group. */
  lemma SymbolBelowGroup(distanceCode: nat, groups: nat, numDirect: nat, postfixBits: nat)
    requires distanceCode >= NUM_DISTANCE_SHORT_CODES + numDirect
    ensures var first := NUM_DISTANCE_SHORT_CODES + numDirect;
            PrefixSplit(distanceCode, numDirect, postfixBits).symbol < first + Shl(groups, postfixBits)
            <==> Pow2(postfixBits + 2) + (distanceCode - first) < GroupStart(groups, postfixBits)
  {
    hide Pow2, Shl, Shr, Low, BitOr, BitAnd, Log2, SplitInterleaved, GroupStart;
    var dist := Pow2(postfixBits + 2) + (distanceCode - NUM_DISTANCE_SHORT_CODES - numDirect);
    var s := PrefixSplit(distanceCode, numDirect, postfixBits);
    var prefix, postfix := SplitShape(dist, numDirect, postfixBits);
    var g := 2 * (s.nbits - 1) + prefix;
    ShapeInGroup(dist, s.nbits, prefix, s.extra, postfix, postfixBits);
    if g < groups {
      GroupStartMonotone(g + 1, groups, postfixBits);
      ShlMonotone(g, groups, postfixBits);
    } else {
      GroupStartMonotone(groups, g, postfixBits);
      ShlMonotone(groups, g, postfixBits);
    }
  }

  /** `alphabet` symbols express exactly the distances up to `maxDistance`. */
  ghost predicate Expresses(alphabet: nat, maxDistance: nat, numDirect: nat, postfixBits: nat) {
    forall d: nat :: d >= NUM_DISTANCE_SHORT_CODES ==>
      (PrefixSplit(d, numDirect, postfixBits).symbol < alphabet <==> d - (NUM_DISTANCE_SHORT_CODES - 1) <= maxDistance)
  }

  /** The largest distance below group `groups`. */
  ghost function LastDistance(groups: nat, numDirect: nat, postfixBits: nat): int {
    GroupStart(groups, postfixBits) - Pow2(postfixBits + 2) + numDirect
  }

  lemma GroupsExpress(groups: nat, numDirect: nat, postfixBits: nat)
    ensures LastDistance(groups, numDirect, postfixBits) >= numDirect
    ensures Expresses(NUM_DISTANCE_SHORT_CODES + numDirect + Shl(groups, postfixBits),
                      LastDistance(groups, numDirect, postfixBits), numDirect, postfixBits)
  {
    hide Shl, Shr, Low, Log2, SplitInterleaved;
    GroupStartMonotone(0, groups, postfixBits);
    ShlPow2(1, 1 + postfixBits);
    forall d: nat | d >= NUM_DISTANCE_SHORT_CODES
      ensures PrefixSplit(d, numDirect, postfixBits).symbol < NUM_DISTANCE_SHORT_CODES + numDirect
              + Shl(groups, postfixBits)
              <==> d - (NUM_DISTANCE_SHORT_CODES - 1) <= LastDistance(groups, numDirect, postfixBits)
    {
      if d >= NUM_DISTANCE_SHORT_CODES + numDirect { SymbolBelowGroup(d, groups, numDirect, postfixBits); }
    }
  }

  // ----------------------------------------------------------------- DistanceParams

  function NewParams(postfixBits: nat, numDirect: nat): DistanceParams {
    var alphabet := NUM_DISTANCE_SHORT_CODES + numDirect + Shl(MAX_DISTANCE_BITS, postfixBits + 1);
    Pow2Monotone(postfixBits + 2, MAX_DISTANCE_BITS + postfixBits + 2);
    DistanceParams(postfixBits, numDirect, alphabet, alphabet,
                   numDirect + Pow2(MAX_DISTANCE_BITS + postfixBits + 2) - Pow2(postfixBits + 2))
  }

  /** `DistanceParams::new` states exactly the largest distance its alphabet expresses, for every
      parameters. */
  lemma NewParamsExact(postfixBits: nat, numDirect: nat)
    ensures var p := NewParams(postfixBits, numDirect);
            Expresses(p.alphabetSizeLimit, p.maxDistance, numDirect, postfixBits)
  {
    hide Shr, Low, Log2, PrefixSplit;
    var groups := 2 * MAX_DISTANCE_BITS;
    ShlDouble(MAX_DISTANCE_BITS, postfixBits);
    ShlPow2(1, 1 + MAX_DISTANCE_BITS + postfixBits);
    assert groups % 2 == 0 && groups / 2 == MAX_DISTANCE_BITS;
    GroupsExpress(groups, numDirect, postfixBits);
  }

  ghost predicate WholeGroups(alphabet: nat, numDirect: nat, postfixBits: nat) {
    exists g: nat :: alphabet == NUM_DISTANCE_SHORT_CODES + numDirect + Shl(g, postfixBits)
  }

  datatype DistanceCodeLimit = DistanceCodeLimit(maxAlphabetSize: nat, maxDistance: nat)

  /** Adding four to the interleaved offset wraps a `u32` exactly for these limits, although each of
      them leaves room for one more. */
  lemma OffsetWraps(maxDistance: nat, postfixBits: nat, numDirect: nat)
    requires numDirect < maxDistance < U32 - 1 && postfixBits <= MAX_NPOSTFIX
    ensures Shr(maxDistance - numDirect, postfixBits) + 4 >= U32
            <==> postfixBits == 0 && maxDistance - numDirect >= U32 - 4
  {
    hide Shl, Low, Log2;
    var v := maxDistance - numDirect;
    LowShr(v, postfixBits);
    ShlTimes(Shr(v, postfixBits), postfixBits);
    if postfixBits > 0 {
      Pow2Monotone(1, postfixBits);
      var h, p := Shr(v, postfixBits), Pow2(postfixBits);
      assert h * p >= 2 * h;
    }
  }

  /** `distance_code_limit`: the alphabet returned expresses exactly the distances up to the
      returned maximum, which is within the requested limit, and the next group of symbols already
      contains the distance past that limit. */
  method ComputeDistanceCodeLimit(maxDistance: nat, postfixBits: nat, numDirect: nat) returns (r: DistanceCodeLimit)
    requires postfixBits <= MAX_NPOSTFIX && maxDistance < U32 - 1
    requires maxDistance > numDirect ==> Shr(maxDistance - numDirect, postfixBits) + 4 < U32
    ensures Expresses(r.maxAlphabetSize, r.maxDistance, numDirect, postfixBits)
    ensures r.maxDistance <= maxDistance
    ensures maxDistance > numDirect ==> WholeGroups(r.maxAlphabetSize, numDirect, postfixBits)
    ensures r.maxAlphabetSize <= PrefixSplit(maxDistance + NUM_DISTANCE_SHORT_CODES, numDirect, postfixBits).symbol
            < r.maxAlphabetSize + Pow2(postfixBits)
  {
    hide Shl, Shr, Low, Log2, BitOr, PrefixSplit;
    if maxDistance <= numDirect {
      r := DistanceCodeLimit(maxDistance + NUM_DISTANCE_SHORT_CODES, maxDistance);
      SmallLimit(maxDistance, postfixBits, numDirect);
      return;
    }
    var forbidden := maxDistance + 1;
    var postfix := Pow2(postfixBits) - 1;
    var offset := Shr(forbidden - numDirect - 1, postfixBits) + 4;

    var distanceBits := FloorLog2(offset / 2);
    var half := Shr(offset, distanceBits) % 2;
    OffsetGroup(maxDistance, postfixBits, numDirect, offset, distanceBits);
    var group := BitOr(Shl(distanceBits - 1, 1), half);
    assert group == 2 * (distanceBits - 1) + half by { OrHalf(distanceBits - 1, half); }
    GroupsExpress(group, numDirect, postfixBits);
    ghost var alphabet := NUM_DISTANCE_SHORT_CODES + numDirect + Shl(group, postfixBits);
    if group == 0 {
      r := DistanceCodeLimit(numDirect + NUM_DISTANCE_SHORT_CODES, numDirect);
      assert Shl(group, postfixBits) == 0 by { ShlZero(postfixBits); }
      assert LastDistance(group, numDirect, postfixBits) == numDirect by { ShlPow2(1, 1 + postfixBits); }
    } else {
      r := LimitBelow(group - 1, postfix, postfixBits, numDirect);
    }
    assert r.maxAlphabetSize == alphabet && r.maxDistance == LastDistance(group, numDirect, postfixBits);
  }

  /** The last permitted group is the one below the forbidden distance's. */
  function LimitBelow(group: nat, postfix: nat, postfixBits: nat, numDirect: nat): (r: DistanceCodeLimit)
    requires postfix == Pow2(postfixBits) - 1
    ensures r.maxAlphabetSize == NUM_DISTANCE_SHORT_CODES + numDirect + Shl(group + 1, postfixBits)
    ensures r.maxDistance == LastDistance(group + 1, numDirect, postfixBits)
  {
    var distanceBits := group / 2 + 1;
    var extra := Pow2(distanceBits) - 1;
    Pow2Monotone(2, distanceBits + 1);
    var start := Pow2(distanceBits + 1) - 4 + Shl(group % 2, distanceBits);
    OrPostfix(group, postfixBits);
    LastOfGroup(group, postfixBits, distanceBits, start, extra);
    DistanceCodeLimit(
      BitOr(Shl(group, postfixBits), postfix) + numDirect + NUM_DISTANCE_SHORT_CODES + 1,
      Shl(start + extra, postfixBits) + postfix + numDirect + 1)
  }

  /** The loop of `distance_code_limit`: floor of the base-two logarithm. */
  method FloorLog2(v: nat) returns (n: nat)
    requires v > 0
    ensures n == Log2(v)
  {
    n := 0;
    var rest := v;
    while rest != 0
      invariant rest == Shr(v, n) && (n > 0 ==> Shr(v, n - 1) != 0)
      decreases rest
    {
      ShrShr(v, n, 1);
      assert Shr(rest, 1) == rest / 2;
      n := n + 1;
      rest := rest / 2;
    }
    LoopFindsLog2(v, n);
    n := n - 1;
  }

  lemma SmallLimit(maxDistance: nat, postfixBits: nat, numDirect: nat)
    requires maxDistance <= numDirect
    ensures Expresses(maxDistance + NUM_DISTANCE_SHORT_CODES, maxDistance, numDirect, postfixBits)
    ensures var a := maxDistance + NUM_DISTANCE_SHORT_CODES;
            a <= PrefixSplit(a, numDirect, postfixBits).symbol < a + Pow2(postfixBits)
  {
    hide Shr, Low, Log2, SplitInterleaved;
    assert GroupStart(0, postfixBits) == Pow2(postfixBits + 2) by { ShlPow2(1, 1 + postfixBits); }
    assert Shl(0, postfixBits) == 0 by { ShlZero(postfixBits); }
    forall d: nat | d >= NUM_DISTANCE_SHORT_CODES
      ensures PrefixSplit(d, numDirect, postfixBits).symbol < maxDistance + NUM_DISTANCE_SHORT_CODES
              <==> d - (NUM_DISTANCE_SHORT_CODES - 1) <= maxDistance
    {
      if d >= NUM_DISTANCE_SHORT_CODES + numDirect { SymbolBelowGroup(d, 0, numDirect, postfixBits); }
    }
    if maxDistance == numDirect {
      assert SplitInterleaved(Pow2(postfixBits + 2), NUM_DISTANCE_SHORT_CODES + numDirect, postfixBits).symbol
          == NUM_DISTANCE_SHORT_CODES + numDirect by {
        ShlPow2(2, postfixBits);
        ShapeSplits(Pow2(postfixBits + 2), 1, 0, 0, 0, numDirect, postfixBits);
      }
    }
  }

  lemma LoopFindsLog2(v: nat, n: nat)
    requires v > 0 && Shr(v, n) == 0 && (n > 0 ==> Shr(v, n - 1) != 0)
    ensures n > 0 && Log2(v) == n - 1
  {
    hide Low, Log2;
    LowShr(v, n);
    LowBound(v, n);
    ShlZero(n);
    LowShr(v, n - 1);
    ShlMonotone(1, Shr(v, n - 1), n - 1);
    ShlPow2(0, n - 1);
    Log2Unique(v, n - 1);
  }

  /** The group the first forbidden distance falls in, from the interleaved offset. */
  lemma OffsetGroup(maxDistance: nat, postfixBits: nat, numDirect: nat, offset: nat, distanceBits: nat)
    requires maxDistance > numDirect && offset == Shr(maxDistance - numDirect, postfixBits) + 4
    requires distanceBits == Log2(offset / 2)
    ensures distanceBits >= 1
    ensures var group := 2 * (distanceBits - 1) + Shr(offset, distanceBits) % 2;
            var first := NUM_DISTANCE_SHORT_CODES + numDirect + Shl(group, postfixBits);
            && first <= PrefixSplit(maxDistance + NUM_DISTANCE_SHORT_CODES, numDirect, postfixBits).symbol
               < first + Pow2(postfixBits)
            && LastDistance(group, numDirect, postfixBits) <= maxDistance
  {
    hide Pow2, Shl, Shr, Low, BitOr, BitAnd, Log2, SplitInterleaved, GroupStart;
    var dist := Pow2(postfixBits + 2) + (maxDistance - numDirect);
    var s := PrefixSplit(maxDistance + NUM_DISTANCE_SHORT_CODES, numDirect, postfixBits);
    var prefix, postfix := SplitShape(dist, numDirect, postfixBits);
    var head := Shl(2 + prefix, s.nbits) + s.extra;
    assert head == offset by {
      InterleavedHead(maxDistance - numDirect, head, postfix, postfixBits);
    }
    assert Shr(offset, s.nbits) == 2 + prefix by { Compose(s.extra, 2 + prefix, s.nbits); }
    assert Log2(offset / 2) == s.nbits by { HeadLog2(head, s.nbits, prefix, s.extra); }
    assert (2 + prefix) % 2 == prefix;
    ShapeInGroup(dist, s.nbits, prefix, s.extra, postfix, postfixBits);
  }

  /** Dropping the postfix of an interleaved value leaves the offset the limit works with. */
  lemma InterleavedHead(v: nat, head: nat, postfix: nat, postfixBits: nat)
    requires Pow2(postfixBits + 2) + v == Shl(head, postfixBits) + postfix && postfix < Pow2(postfixBits)
    ensures head == Shr(v, postfixBits) + 4
  {
    hide Shl, Shr, Low, Log2;
    Compose(postfix, head, postfixBits);
    LowShr(v, postfixBits);
    LowBound(v, postfixBits);
    ShlPow2(2, postfixBits);
    ShlAdd(4, Shr(v, postfixBits), postfixBits);
    Compose(Low(v, postfixBits), Shr(v, postfixBits) + 4, postfixBits);
  }

  lemma HeadLog2(head: nat, nbits: nat, prefix: nat, extra: nat)
    requires head == Shl(2 + prefix, nbits) + extra && prefix < 2 && extra < Pow2(nbits) && nbits >= 1
    ensures head >= 2 && Log2(head / 2) == nbits
  {
    hide Shr, Low, Log2;
    ShlPow2(1, nbits);
    ShlPow2(0, nbits);
    ShlAdd(2, prefix, nbits);
    ShlZero(nbits);
    Log2Unique(head / 2, nbits);
  }

  lemma OrHalf(a: nat, half: nat)
    requires half < 2
    ensures BitOr(Shl(a, 1), half) == 2 * a + half
  {
    BitOrCommutes(Shl(a, 1), half);
    BitOrDisjoint(1, half, a);
    assert Shl(a, 1) == 2 * a;
  }

  lemma OrPostfix(group: nat, postfixBits: nat)
    ensures BitOr(Shl(group, postfixBits), Pow2(postfixBits) - 1) + 1 == Shl(group + 1, postfixBits)
  {
    BitOrCommutes(Shl(group, postfixBits), Pow2(postfixBits) - 1);
    BitOrDisjoint(postfixBits, Pow2(postfixBits) - 1, group);
    ShlAdd(group, 1, postfixBits);
    ShlPow2(0, postfixBits);
  }

  lemma LastOfGroup(group: nat, postfixBits: nat, distanceBits: nat, start: nat, extra: nat)
    requires distanceBits == group / 2 + 1 && Pow2(distanceBits + 1) >= 4
    requires start == Pow2(distanceBits + 1) - 4 + Shl(group % 2, distanceBits) && extra == Pow2(distanceBits) - 1
    ensures Shl(start + extra, postfixBits) + Pow2(postfixBits) - 1 + 1
            == GroupStart(group + 1, postfixBits) - Pow2(postfixBits + 2)
  {
    hide Shr, Low, Log2;
    GroupStartNext(group, postfixBits);
    ShlPow2(1, distanceBits);
    ShlAdd(2, group % 2, distanceBits);
    ShlShl(2 + group % 2, distanceBits, postfixBits);
    ShlPow2(distanceBits, postfixBits);
    ShlAdd(start + extra, 5, postfixBits);
    ShlAdd(Shl(2 + group % 2, distanceBits), Pow2(distanceBits), postfixBits);
    ShlAdd(4, 1, postfixBits);
    ShlPow2(2, postfixBits);
    ShlPow2(0, postfixBits);
  }

  /** Whole groups that stay within the allowed distance fit the histogram of distance symbols, and
      the alphabet of a large window. */
  lemma GroupsFitHistogram(g: nat, numDirect: nat, postfixBits: nat)
    requires Legal(postfixBits, numDirect) && LastDistance(g, numDirect, postfixBits) <= MAX_ALLOWED_DISTANCE
    ensures NUM_DISTANCE_SHORT_CODES + numDirect + Shl(g, postfixBits) <= NUM_HISTOGRAM_DISTANCE_SYMBOLS
    ensures Shl(g, postfixBits) <= Shl(LARGE_MAX_DISTANCE_BITS, postfixBits + 1)
  {
    hide Shl, Shr, Low, Log2, GroupStart;
    LegalDirect(postfixBits, numDirect);
    Pow2Values();
    LateGroups(postfixBits);
    var late := 58 - 2 * postfixBits;
    if g > late { GroupStartMonotone(late + 1, g, postfixBits); }
    assert g <= late;
    ShlTimes(g, postfixBits);
    ShlTimes(LARGE_MAX_DISTANCE_BITS, postfixBits + 1);
    assert Pow2(postfixBits + 2) == 4 * Pow2(postfixBits);
    SmallPostfix(postfixBits);
  }

  lemma SmallPostfix(postfixBits: nat)
    requires postfixBits <= MAX_NPOSTFIX
    ensures Pow2(postfixBits) == [1, 2, 4, 8][postfixBits]
  {
    Pow2Values();
  }

  /** The groups that start at two to the thirty-first, and half as far again. */
  lemma LateGroups(postfixBits: nat)
    requires postfixBits <= MAX_NPOSTFIX
    ensures GroupStart(58 - 2 * postfixBits, postfixBits) == 0x8000_0000
    ensures GroupStart(59 - 2 * postfixBits, postfixBits) == 0xC000_0000
  {
    hide Shl;
    Pow2Values();
    assert Pow2(32) == 2 * Pow2(31) && Pow2(31) == 2 * Pow2(30);
    ShlTimes(2, 30);
    ShlTimes(3, 30);
    assert (58 - 2 * postfixBits) / 2 == 29 - postfixBits == (59 - 2 * postfixBits) / 2;
  }

  /** Two ways to say how far an alphabet goes agree. */
  lemma ExpressedOnce(alphabet: nat, a: nat, b: nat, numDirect: nat, postfixBits: nat)
    requires Expresses(alphabet, a, numDirect, postfixBits) && Expresses(alphabet, b, numDirect, postfixBits)
    ensures a == b
  {
    hide PrefixSplit;
    var most := if a < b then b else a;
    var within := PrefixSplit(most + NUM_DISTANCE_SHORT_CODES - 1, numDirect, postfixBits).symbol < alphabet;
    assert most > 0 ==> within == (most <= a) == (most <= b);
  }

  /** `DistanceParams::new_large`. */
  method NewLargeParams(postfixBits: nat, numDirect: nat) returns (p: DistanceParams)
    requires Legal(postfixBits, numDirect)
    ensures p.postfixBits == postfixBits && p.numDirect == numDirect
    ensures p.alphabetSizeMax == NUM_DISTANCE_SHORT_CODES + numDirect + Shl(LARGE_MAX_DISTANCE_BITS, postfixBits + 1)
    ensures Expresses(p.alphabetSizeLimit, p.maxDistance, numDirect, postfixBits)
    ensures p.maxDistance <= MAX_ALLOWED_DISTANCE
    ensures p.alphabetSizeLimit <= NUM_HISTOGRAM_DISTANCE_SYMBOLS && p.alphabetSizeLimit <= p.alphabetSizeMax
  {
    hide Shl, Shr, Low, Log2, BitOr, GroupStart, Expresses;
    LegalDirect(postfixBits, numDirect);
    LowShr(MAX_ALLOWED_DISTANCE - numDirect, postfixBits);
    ShlTimes(Shr(MAX_ALLOWED_DISTANCE - numDirect, postfixBits), postfixBits);
    assert Shr(MAX_ALLOWED_DISTANCE - numDirect, postfixBits) <= MAX_ALLOWED_DISTANCE;
    var limit := ComputeDistanceCodeLimit(MAX_ALLOWED_DISTANCE, postfixBits, numDirect);
    ghost var g: nat :| limit.maxAlphabetSize == NUM_DISTANCE_SHORT_CODES + numDirect + Shl(g, postfixBits);
    GroupsExpress(g, numDirect, postfixBits);
    ExpressedOnce(limit.maxAlphabetSize, limit.maxDistance, LastDistance(g, numDirect, postfixBits), numDirect,
                  postfixBits);
    GroupsFitHistogram(g, numDirect, postfixBits);
    p := DistanceParams(postfixBits, numDirect,
                        NUM_DISTANCE_SHORT_CODES + numDirect + Shl(LARGE_MAX_DISTANCE_BITS, postfixBits + 1),
                        limit.maxAlphabetSize, limit.maxDistance);
  }

  // ---------------------------------------------------------- bijection within the alphabet

  /** Parameters of either window kind: legal, and the alphabet expresses exactly the distances up
      to a maximum a signed 32-bit range holds. */
  ghost predicate Sound(p: DistanceParams) {
    && Legal(p.postfixBits, p.numDirect)
    && Expresses(p.alphabetSizeLimit, p.maxDistance, p.numDirect, p.postfixBits)
    && p.maxDistance <= MAX_ALLOWED_DISTANCE
  }

  lemma NewParamsSound(postfixBits: nat, numDirect: nat)
    requires Legal(postfixBits, numDirect)
    ensures Sound(NewParams(postfixBits, numDirect))
  {
    hide Shl, Shr, Low, Log2;
    NewParamsExact(postfixBits, numDirect);
    LegalDirect(postfixBits, numDirect);
    Pow2Monotone(MAX_DISTANCE_BITS + postfixBits + 2, 29);
    Pow2Values();
    assert Pow2(29) == 32 * Pow2(24);
  }

  /** A code for a distance up to the maximum has a symbol that fits ten bits and at most 29
      extra bits. */
  lemma SplitBounds(distanceCode: nat, numDirect: nat, postfixBits: nat)
    requires postfixBits <= MAX_NPOSTFIX && numDirect <= MAX_NDIRECT
    requires distanceCode <= MAX_ALLOWED_DISTANCE + (NUM_DISTANCE_SHORT_CODES - 1)
    ensures var s := PrefixSplit(distanceCode, numDirect, postfixBits);
            s.nbits <= 29 && s.symbol < 1024 && s.extra < 0x2000_0000
  {
    hide Shl, Shr, Low, Log2, BitOr, SplitInterleaved;
    Pow2Values();
    assert Pow2(29) == 32 * Pow2(24) && Pow2(31) == 128 * Pow2(24);
    var s := PrefixSplit(distanceCode, numDirect, postfixBits);
    if distanceCode >= NUM_DISTANCE_SHORT_CODES + numDirect {
      var dist := Pow2(postfixBits + 2) + (distanceCode - NUM_DISTANCE_SHORT_CODES - numDirect);
      var prefix, postfix := SplitShape(dist, numDirect, postfixBits);
      var tail := ShapeBucket(dist, s.nbits, prefix, s.extra, postfix, postfixBits);
      Pow2Monotone(postfixBits + 2, 5);
      var top := s.nbits + postfixBits + 1;
      if postfixBits == 0 {
        if top >= 31 { Pow2Monotone(31, top); }
      } else {
        if top >= 32 { Pow2Monotone(32, top); }
      }
      Pow2Monotone(s.nbits, 29);
      ShlMonotone(2 * (s.nbits - 1) + prefix, 57, postfixBits);
      ShlTimes(57, postfixBits);
      Pow2Monotone(postfixBits, 3);
    }
  }

  /** For every legal parameters and every code for a distance the parameters express, encoding
      packs a symbol inside the alphabet, restoring gives the code back, and the pair denotes the
      code's distance by section 4 of RFC 7932. */
  lemma DistanceCodingRoundTrip(distanceCode: nat, p: DistanceParams)
    requires Sound(p) && distanceCode <= p.maxDistance + (NUM_DISTANCE_SHORT_CODES - 1)
    ensures var (prefix, extra) := PrefixEncodeCopyDistance(distanceCode, p.numDirect, p.postfixBits);
            var symbol := Low(prefix, 10);
            && prefix < U16 && extra < U32
            && (symbol >= NUM_DISTANCE_SHORT_CODES + p.numDirect ==> Shr(prefix, 10) >= 1)
            && RestoreDistanceCode(prefix, extra, p.numDirect, p.postfixBits) == distanceCode
            && (distanceCode < NUM_DISTANCE_SHORT_CODES <==> symbol < NUM_DISTANCE_SHORT_CODES)
            && (distanceCode < NUM_DISTANCE_SHORT_CODES ==>
                symbol == distanceCode && Shr(prefix, 10) == 0 && extra == 0)
            && (distanceCode >= NUM_DISTANCE_SHORT_CODES ==>
                  && symbol < p.alphabetSizeLimit
                  && Shr(prefix, 10) == ExtraBits(symbol, p.numDirect, p.postfixBits) <= 29
                  && extra < Pow2(Shr(prefix, 10))
                  && Distance(symbol, extra, p.numDirect, p.postfixBits)
                      == distanceCode - (NUM_DISTANCE_SHORT_CODES - 1))
  {
    hide Pow2, Shl, Shr, Low, BitOr, BitAnd, Log2, SplitInterleaved, RestoreDistanceCode, Distance, ExtraBits;
    var s := PrefixSplit(distanceCode, p.numDirect, p.postfixBits);
    var (prefix, extra) := PrefixEncodeCopyDistance(distanceCode, p.numDirect, p.postfixBits);
    assert s.symbol < 1024 && s.nbits <= 29 && s.extra < U32 by {
      LegalDirect(p.postfixBits, p.numDirect);
      SplitBounds(distanceCode, p.numDirect, p.postfixBits);
    }
    assert Low(prefix, 10) == s.symbol && Shr(prefix, 10) == s.nbits && extra == s.extra by { PackedFields(s); }
    RestoreInvertsEncode(distanceCode, p.numDirect, p.postfixBits);
    if distanceCode >= NUM_DISTANCE_SHORT_CODES {
      SplitDenotesDistance(distanceCode, p.numDirect, p.postfixBits);
      assert s.symbol < p.alphabetSizeLimit;
    }
  }
}
