/** Bit sequences: the abstract value of everything the writers emit.

    RFC 7932 packs integers starting with the least significant bit, so a stream is a
    sequence of booleans and an `n`-bit field holding `v` is `ToBits(n, v)`.  The program's
    shifts are `Shl` and `Shr`, `x & ((1 << n) - 1)` is `Low(x, n)`, and its other `|` and `&`
    are `BitOr` and `BitAnd`. */
module Bits {
  type byte = b: int | 0 <= b < 256
  type bits = seq<bool>

  const U16: nat := 0x1_0000
  const U32: nat := 0x1_0000_0000
  const U64: nat := 0x1_0000_0000_0000_0000

  // ---------------------------------------------------------------- shifts

  function Pow2(n: nat): (p: nat)
    ensures p >= 1
  {
    if n == 0 then 1 else 2 * Pow2(n - 1)
  }

  /** `v << n` */
  function Shl(v: nat, n: nat): nat
  {
    if n == 0 then v else 2 * Shl(v, n - 1)
  }

  /** `v >> n` */
  function Shr(v: nat, n: nat): nat
  {
    if n == 0 then v else Shr(v / 2, n - 1)
  }

  /** `v & ((1 << n) - 1)` */
  function Low(v: nat, n: nat): nat
  {
    if n == 0 then 0 else v % 2 + 2 * Low(v / 2, n - 1)
  }

  lemma {:induction false} LowBound(v: nat, n: nat)
    ensures Low(v, n) < Pow2(n)
  {
    if n > 0 { LowBound(v / 2, n - 1); }
  }

  lemma {:induction false} LowShr(v: nat, n: nat)
    ensures v == Low(v, n) + Shl(Shr(v, n), n)
  {
    if n > 0 { LowShr(v / 2, n - 1); }
  }

  /** A value made of `n` low bits and a shifted rest takes apart again. */
  lemma {:induction false} Compose(low: nat, high: nat, n: nat)
    requires low < Pow2(n)
    ensures Low(low + Shl(high, n), n) == low
    ensures Shr(low + Shl(high, n), n) == high
  {
    if n > 0 {
      Compose(low / 2, high, n - 1);
      assert (low + Shl(high, n)) / 2 == low / 2 + Shl(high, n - 1);
    }
  }

  lemma {:induction false} ShlZero(n: nat)
    ensures Shl(0, n) == 0
  {
    if n > 0 { ShlZero(n - 1); }
  }

  lemma LowSmall(v: nat, n: nat)
    requires v < Pow2(n)
    ensures Low(v, n) == v && Shr(v, n) == 0
  {
    ShlZero(n);
    Compose(v, 0, n);
  }

  lemma {:induction false} ShlAdd(a: nat, b: nat, n: nat)
    ensures Shl(a + b, n) == Shl(a, n) + Shl(b, n)
  {
    if n > 0 { ShlAdd(a, b, n - 1); }
  }

  lemma {:induction false} ShlMonotone(a: nat, b: nat, n: nat)
    requires a <= b
    ensures Shl(a, n) <= Shl(b, n)
    ensures a < b ==> Shl(a, n) + Pow2(n) <= Shl(b, n)
  {
    if n > 0 { ShlMonotone(a, b, n - 1); }
  }

  lemma {:induction false} ShlPow2(a: nat, n: nat)
    ensures Shl(Pow2(a), n) == Pow2(a + n)
  {
    if n > 0 { ShlPow2(a, n - 1); }
  }

  lemma {:induction false} ShlTimes(v: nat, n: nat)
    ensures Shl(v, n) == v * Pow2(n)
  {
    if n > 0 {
      ShlTimes(v, n - 1);
      var p := Pow2(n - 1);
      assert 2 * (v * p) == v * (2 * p);
    }
  }

  lemma {:induction false} ShlShl(v: nat, a: nat, b: nat)
    ensures Shl(Shl(v, a), b) == Shl(v, a + b)
  {
    if b > 0 { ShlShl(v, a, b - 1); }
  }

  lemma {:induction false} ShlDouble(v: nat, n: nat)
    ensures Shl(2 * v, n) == 2 * Shl(v, n)
  {
    if n > 0 { ShlDouble(v, n - 1); }
  }

  lemma {:induction false} ShrShr(v: nat, a: nat, b: nat)
    ensures Shr(Shr(v, a), b) == Shr(v, a + b)
  {
    if a > 0 { ShrShr(v / 2, a - 1, b); }
  }

  lemma ShrBound(v: nat, a: nat, b: nat)
    requires v < Pow2(a + b)
    ensures Shr(v, a) < Pow2(b)
  {
    LowShr(v, a);
    if Shr(v, a) >= Pow2(b) {
      ShlMonotone(Pow2(b), Shr(v, a), a);
      ShlPow2(b, a);
    }
  }

  lemma {:induction false} Pow2Monotone(a: nat, b: nat)
    requires a <= b
    ensures Pow2(a) <= Pow2(b)
    ensures a < b ==> 2 * Pow2(a) <= Pow2(b)
    decreases b
  {
    if a < b { Pow2Monotone(a, b - 1); }
  }

  /** Powers the program writes as literals. */
  lemma Pow2Values()
    ensures Pow2(1) == 2 && Pow2(2) == 4 && Pow2(3) == 8 && Pow2(4) == 16 && Pow2(5) == 32
    ensures Pow2(6) == 64 && Pow2(7) == 128 && Pow2(8) == 256 && Pow2(9) == 512 && Pow2(10) == 1024
    ensures Pow2(12) == 4096 && Pow2(14) == 16384 && Pow2(16) == U16 && Pow2(24) == 0x100_0000
    ensures Pow2(32) == U32
  {
    var p8, p16 := Pow2(8), Pow2(16);
    assert p8 == 256;
    assert Pow2(12) == 16 * p8 && Pow2(14) == 64 * p8 && p16 == 256 * p8;
    assert Pow2(24) == 256 * p16;
    assert Pow2(32) == 256 * Pow2(24);
  }

  /** `log2_floor_non_zero`: the position of the highest set bit. */
  function Log2(v: nat): (r: nat)
    requires v > 0
    ensures Pow2(r) <= v < 2 * Pow2(r)
  {
    if v == 1 then 0 else 1 + Log2(v / 2)
  }

  lemma Log2Unique(v: nat, r: nat)
    requires v > 0 && Pow2(r) <= v < 2 * Pow2(r)
    ensures Log2(v) == r
  {
    var l := Log2(v);
    if l < r { Pow2Monotone(l, r); }
    if r < l { Pow2Monotone(r, l); }
  }

  // ---------------------------------------------------------------- fields

  /** Bit `i` of `v`. */
  predicate Bit(v: nat, i: nat)
  {
    if i == 0 then v % 2 == 1 else Bit(v / 2, i - 1)
  }

  lemma {:induction false} BitHigh(v: nat, n: nat, i: nat)
    requires v < Pow2(n) && n <= i
    ensures !Bit(v, i)
    decreases i
  {
    if n == 0 {
      if i > 0 { BitHigh(v / 2, 0, i - 1); }
    } else {
      BitHigh(v / 2, n - 1, i - 1);
    }
  }

  lemma {:induction false} BitShr(v: nat, a: nat, i: nat)
    ensures Bit(Shr(v, a), i) == Bit(v, a + i)
  {
    if a > 0 { BitShr(v / 2, a - 1, i); }
  }

  lemma {:induction false} BitShl(v: nat, a: nat, i: nat)
    ensures Bit(Shl(v, a), i) == (a <= i && Bit(v, i - a))
  {
    if a > 0 && i > 0 { BitShl(v, a - 1, i - 1); }
  }

  lemma {:induction false} BitLow(v: nat, n: nat, i: nat)
    ensures Bit(Low(v, n), i) == (i < n && Bit(v, i))
  {
    if n == 0 {
      BitHigh(0, 0, i);
    } else if i > 0 {
      BitLow(v / 2, n - 1, i - 1);
    }
  }

  /** The `n` low bits of `v`, least significant first. */
  function ToBits(n: nat, v: nat): (s: bits)
    ensures |s| == n
  {
    seq(n, i requires 0 <= i < n => Bit(v, i))
  }

  function FromBits(s: bits): (v: nat)
    ensures v < Pow2(|s|)
  {
    if |s| == 0 then 0 else (if s[0] then 1 else 0) + 2 * FromBits(s[1..])
  }

  /** Reading a field back yields the bits that fitted. */
  lemma {:induction false} FromToBits(n: nat, v: nat)
    ensures FromBits(ToBits(n, v)) == Low(v, n)
    ensures v < Pow2(n) ==> FromBits(ToBits(n, v)) == v
  {
    if n > 0 {
      FromToBits(n - 1, v / 2);
      assert ToBits(n, v)[1..] == ToBits(n - 1, v / 2);
    }
    if v < Pow2(n) { LowSmall(v, n); }
  }

  lemma {:induction false} ToFromBits(s: bits)
    ensures ToBits(|s|, FromBits(s)) == s
  {
    if |s| > 0 {
      ToFromBits(s[1..]);
      var v := FromBits(s);
      assert v / 2 == FromBits(s[1..]);
      forall i | 0 <= i < |s|
        ensures Bit(v, i) == s[i]
      {
        if i > 0 { assert ToBits(|s| - 1, v / 2)[i - 1] == s[1..][i - 1]; }
      }
    }
  }

  /** Cutting a field in two. */
  lemma ToBitsCut(a: nat, b: nat, v: nat)
    ensures ToBits(a + b, v) == ToBits(a, v) + ToBits(b, Shr(v, a))
  {
    forall i | 0 <= i < b
      ensures Bit(Shr(v, a), i) == Bit(v, a + i)
    {
      BitShr(v, a, i);
    }
  }

  lemma ToBitsLow(n: nat, v: nat)
    ensures ToBits(n, Low(v, n)) == ToBits(n, v)
  {
    forall i | 0 <= i < n
      ensures Bit(Low(v, n), i) == Bit(v, i)
    {
      BitLow(v, n, i);
    }
  }

  /** A field of `a + b` bits is its low `a` bits followed by the rest. */
  lemma ToBitsSplit(a: nat, b: nat, low: nat, high: nat)
    requires low < Pow2(a)
    ensures ToBits(a + b, low + Shl(high, a)) == ToBits(a, low) + ToBits(b, high)
  {
    var v := low + Shl(high, a);
    Compose(low, high, a);
    ToBitsCut(a, b, v);
    ToBitsLow(a, v);
  }

  function Zeros(n: nat): (s: bits)
    ensures |s| == n && forall i :: 0 <= i < n ==> !s[i]
  {
    seq(n, _ => false)
  }

  lemma ToBitsZero(n: nat)
    ensures ToBits(n, 0) == Zeros(n)
  {
    forall i | 0 <= i < n
      ensures !Bit(0, i)
    {
      BitHigh(0, 0, i);
    }
  }

  /** A value that fits `a` bits has zeros in every position above them. */
  lemma ToBitsPad(a: nat, b: nat, v: nat)
    requires v < Pow2(a)
    ensures ToBits(a + b, v) == ToBits(a, v) + Zeros(b)
  {
    forall i | a <= i < a + b
      ensures !Bit(v, i)
    {
      BitHigh(v, a, i);
    }
  }

  // ------------------------------------------------------- bitwise operators

  function BitOr(a: nat, b: nat): nat
  {
    if a == 0 && b == 0 then 0
    else (if a % 2 == 1 || b % 2 == 1 then 1 else 0) + 2 * BitOr(a / 2, b / 2)
  }

  function BitAnd(a: nat, b: nat): nat
  {
    if a == 0 || b == 0 then 0
    else (if a % 2 == 1 && b % 2 == 1 then 1 else 0) + 2 * BitAnd(a / 2, b / 2)
  }

  lemma {:induction false} BitOrBit(a: nat, b: nat, i: nat)
    ensures Bit(BitOr(a, b), i) == (Bit(a, i) || Bit(b, i))
    decreases i
  {
    if a == 0 && b == 0 {
      BitHigh(0, 0, i);
    } else if i > 0 { BitOrBit(a / 2, b / 2, i - 1); }
  }

  lemma {:induction false} BitAndBit(a: nat, b: nat, i: nat)
    ensures Bit(BitAnd(a, b), i) == (Bit(a, i) && Bit(b, i))
    decreases i
  {
    if a == 0 || b == 0 {
      BitHigh(0, 0, i);
    } else if i > 0 {
      BitAndBit(a / 2, b / 2, i - 1);
    }
  }

  lemma {:induction false} BitOrBound(n: nat, a: nat, b: nat)
    requires a < Pow2(n) && b < Pow2(n)
    ensures BitOr(a, b) < Pow2(n)
  {
    if n > 0 { BitOrBound(n - 1, a / 2, b / 2); }
  }

  lemma {:induction false} BitAndBound(a: nat, b: nat)
    ensures BitAnd(a, b) <= a && BitAnd(a, b) <= b
  {
    if a != 0 && b != 0 { BitAndBound(a / 2, b / 2); }
  }

  /** `|` of a value below `2^k` with a value shifted past it is addition. */
  lemma {:induction false} BitOrDisjoint(k: nat, low: nat, high: nat)
    requires low < Pow2(k)
    ensures BitOr(low, Shl(high, k)) == low + Shl(high, k)
  {
    if k == 0 {
      BitOrZero(high);
    } else {
      BitOrDisjoint(k - 1, low / 2, high);
    }
  }

  lemma {:induction false} BitOrZero(a: nat)
    ensures BitOr(0, a) == a
  {
    if a > 0 { BitOrZero(a / 2); }
  }

  lemma {:induction false} BitOrCommutes(a: nat, b: nat)
    ensures BitOr(a, b) == BitOr(b, a)
  {
    if a != 0 || b != 0 { BitOrCommutes(a / 2, b / 2); }
  }

  /** A mask of `k` ones keeps the low `k` bits. */
  lemma {:induction false} BitAndMask(k: nat, v: nat)
    ensures BitAnd(v, Pow2(k) - 1) == Low(v, k)
  {
    if k > 0 {
      BitAndMask(k - 1, v / 2);
      assert (Pow2(k) - 1) / 2 == Pow2(k - 1) - 1;
      if v == 0 { LowSmall(0, k); }
    }
  }

  /** A mask of ones shifted up selects a field in the middle. */
  lemma {:induction false} BitAndShl(v: nat, m: nat, k: nat)
    ensures BitAnd(v, Shl(m, k)) == Shl(BitAnd(Shr(v, k), m), k)
  {
    if k > 0 {
      BitAndShl(v / 2, m, k - 1);
      if v == 0 || Shl(m, k) == 0 {
        assert BitAnd(v / 2, Shl(m, k - 1)) == 0;
      }
    }
  }

  /** Counting on from a masked position wraps at the end of the window. */
  lemma MaskedStep(position: nat, k: nat, i: nat)
    requires i < Pow2(k)
    ensures var at := BitAnd(position, Pow2(k) - 1) + i;
            BitAnd(position + i, Pow2(k) - 1) == if at < Pow2(k) then at else at - Pow2(k)
    ensures BitAnd(position, Pow2(k) - 1) < Pow2(k)
  {
    hide Shl, Shr, Low, BitAnd, Pow2;
    BitAndMask(k, position);
    BitAndMask(k, position + i);
    LowShr(position, k);
    LowBound(position, k);
    var low, high := Low(position, k), Shr(position, k);
    if low + i < Pow2(k) {
      Compose(low + i, high, k);
    } else {
      ShlAdd(high, 1, k);
      ShlTimes(1, k);
      Compose(low + i - Pow2(k), high + 1, k);
    }
  }

  lemma MaskFits(k: nat, position: nat)
    ensures BitAnd(position, Pow2(k) - 1) < Pow2(k)
  {
    MaskedStep(position, k, 0);
  }

  lemma {:induction false} MaskBit(k: nat, i: nat)
    ensures Bit(Pow2(k) - 1, i) == (i < k)
    decreases k
  {
    if k == 0 {
      BitHigh(0, 0, i);
    } else if i > 0 {
      assert (Pow2(k) - 1) / 2 == Pow2(k - 1) - 1;
      MaskBit(k - 1, i - 1);
    }
  }

  /** `!v` in `n` bits is the complement. */
  lemma {:induction false} NotBit(n: nat, v: nat, i: nat)
    requires i < n && v < Pow2(n)
    ensures Bit(Pow2(n) - 1 - v, i) == !Bit(v, i)
    decreases n
  {
    if i > 0 {
      assert (Pow2(n) - 1 - v) / 2 == Pow2(n - 1) - 1 - v / 2;
      NotBit(n - 1, v / 2, i - 1);
    }
  }

  // ------------------------------------------------------------------ bytes

  function BytesToBits(data: seq<byte>): (s: bits)
    ensures |s| == 8 * |data|
  {
    seq(8 * |data|, i requires 0 <= i < 8 * |data| => Bit(data[i / 8], i % 8))
  }

  lemma BytesToBitsAt(data: seq<byte>, i: nat)
    requires i < |data|
    ensures BytesToBits(data)[8 * i..8 * i + 8] == ToBits(8, data[i])
  {
  }

  lemma BytesToBitsInjective(a: seq<byte>, b: seq<byte>)
    requires BytesToBits(a) == BytesToBits(b)
    ensures a == b
  {
    forall i | 0 <= i < |a|
      ensures a[i] == b[i]
    {
      BytesToBitsAt(a, i);
      BytesToBitsAt(b, i);
      FromToBits(8, a[i]);
      FromToBits(8, b[i]);
      assert Pow2(8) == 256;
    }
  }

  lemma BytesToBitsCut(data: seq<byte>, i: nat)
    requires i <= |data|
    ensures BytesToBits(data[..i]) == BytesToBits(data)[..8 * i]
    ensures BytesToBits(data[i..]) == BytesToBits(data)[8 * i..]
  {
  }

  lemma BytesToBitsConcat(a: seq<byte>, b: seq<byte>)
    ensures BytesToBits(a + b) == BytesToBits(a) + BytesToBits(b)
  {
  }

  lemma BytesToBitsCons(data: seq<byte>)
    requires |data| > 0
    ensures BytesToBits(data) == ToBits(8, data[0]) + BytesToBits(data[1..])
  {
    BytesToBitsAt(data, 0);
    BytesToBitsCut(data, 1);
  }

  /** `to_le_bytes`: the low `n` bytes of `v`, least significant first. */
  function LittleEndian(n: nat, v: nat): (data: seq<byte>)
    ensures |data| == n
  {
    seq(n, i requires 0 <= i < n => Shr(v, 8 * i) % 256)
  }

  lemma LittleEndianBit(n: nat, v: nat, t: nat, i: nat)
    requires t < n && i < 8
    ensures Bit(LittleEndian(n, v)[t], i) == Bit(v, 8 * t + i)
  {
    ShrByte(Shr(v, 8 * t));
    BitLow(Shr(v, 8 * t), 8, i);
    BitShr(v, 8 * t, i);
  }

  lemma LittleEndianBits(n: nat, v: nat)
    ensures BytesToBits(LittleEndian(n, v)) == ToBits(8 * n, v)
  {
    forall j | 0 <= j < 8 * n
      ensures BytesToBits(LittleEndian(n, v))[j] == ToBits(8 * n, v)[j]
    {
      LittleEndianBit(n, v, j / 8, j % 8);
    }
  }

  lemma ShrByte(v: nat)
    ensures Shr(v, 8) == v / 256 && Low(v, 8) == v % 256
  {
    LowShr(v, 8);
    LowBound(v, 8);
    ShlTimes(Shr(v, 8), 8);
    assert Pow2(8) == 256;
  }

  // ---------------------------------------------------------------- reading

  /** What a decoder step returns: a value and the bits it left, or a rejection. */
  datatype Read<+T> = Fail | Got(value: T, rest: bits) {
    predicate IsFailure() { Fail? }

    function PropagateFailure<U>(): Read<U>
      requires Fail?
    {
      Fail
    }

    function Extract(): (T, bits)
      requires Got?
    {
      (value, rest)
    }
  }

  function ReadBits(n: nat, s: bits): (r: Read<nat>)
    ensures r.Got? ==> r.value < Pow2(n)
  {
    if |s| < n then Fail else Got(FromBits(s[..n]), s[n..])
  }

  lemma ReadBitsInverts(n: nat, v: nat, rest: bits)
    requires v < Pow2(n)
    ensures ReadBits(n, ToBits(n, v) + rest) == Got(v, rest)
  {
    FromToBits(n, v);
    assert (ToBits(n, v) + rest)[..n] == ToBits(n, v);
  }

  function ReadBytes(n: nat, s: bits): Read<seq<byte>>
  {
    if n == 0 then Got([], s)
    else
      var (b, s) :- ReadBits(8, s);
      assert Pow2(8) == 256;
      var (tail, s) :- ReadBytes(n - 1, s);
      Got([b] + tail, s)
  }

  lemma {:induction false} ReadBytesInverts(data: seq<byte>, rest: bits)
    ensures ReadBytes(|data|, BytesToBits(data) + rest) == Got(data, rest)
  {
    hide FromBits, Bit, ToBits, BytesToBits;
    if |data| == 0 {
      assert BytesToBits(data) + rest == rest;
    } else {
      var tail := BytesToBits(data[1..]) + rest;
      BytesToBitsCons(data);
      assert BytesToBits(data) + rest == ToBits(8, data[0]) + tail;
      ReadBitsInverts(8, data[0], tail);
      ReadBytesInverts(data[1..], rest);
      assert [data[0]] + data[1..] == data;
    }
  }
}
