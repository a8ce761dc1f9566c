/** Prefix codes as the meta-block writer sees them: tables of depths and bit patterns.

    How a table is built from counts, and how its description is laid out, is not part of this
    model.  `Huffman` abstracts `build_and_store_huffman_tree` together with the decoder's reader
    of code descriptions; `Valid` says what both have to agree on. */
module PrefixCodes {
  import opened Bits
  import opened BitWriting

  const MAX_DEPTH := 15

  datatype PrefixCode = PrefixCode(symbols: set<nat>, depth: seq<nat>, pattern: seq<nat>) {
    ghost predicate Fits() {
      && |depth| == |pattern|
      && forall s :: s in symbols ==> s < |depth| && depth[s] <= MAX_DEPTH && pattern[s] < Pow2(depth[s])
    }

    function Word(s: nat): (w: bits)
      requires s < |depth| && |depth| == |pattern|
      ensures |w| == depth[s]
    {
      ToBits(depth[s], pattern[s])
    }

    /** No code word in use is a prefix of another; a lone symbol may have the empty word. */
    ghost predicate PrefixFree() {
      && Fits()
      && forall a, b :: a in symbols && b in symbols && a != b ==> !(Word(a) <= Word(b))
    }

    /** Reads the symbol whose word comes next, trying the symbols from `k` up. */
    function ReadFrom(k: nat, s: bits): Read<nat>
      requires |depth| == |pattern|
      decreases |depth| - k
    {
      if k >= |depth| then Fail
      else if k in symbols && Word(k) <= s then Got(k, s[depth[k]..])
      else ReadFrom(k + 1, s)
    }

    function Read(s: bits): Read<nat> {
      if |depth| != |pattern| then Fail else ReadFrom(0, s)
    }
  }

  lemma {:induction false} ReadFromInverts(code: PrefixCode, k: nat, sym: nat, rest: bits)
    requires code.PrefixFree() && sym in code.symbols && k <= sym
    ensures code.ReadFrom(k, code.Word(sym) + rest) == Got(sym, rest)
    decreases sym - k
  {
    var s := code.Word(sym) + rest;
    assert code.Word(sym) <= s && s[code.depth[sym]..] == rest;
    if k < sym {
      if k in code.symbols && code.Word(k) <= s { assert false; }
      ReadFromInverts(code, k + 1, sym, rest);
    }
  }

  lemma ReadSymbolInverts(code: PrefixCode, sym: nat, rest: bits)
    requires code.PrefixFree() && sym in code.symbols
    ensures code.Read(code.Word(sym) + rest) == Got(sym, rest)
  {
    hide Pow2, Shl, Shr, Low, Bit, BitOr, BitAnd, LittleEndian, Log2, FromBits, ToBits, BytesToBits;
    ReadFromInverts(code, 0, sym, rest);
  }

  /** The tables a coder writes with give every symbol of the code its word; what they hold for
      other symbols, and how far they run, does not matter. */
  ghost predicate Tabulates(depth: seq<nat>, pattern: seq<nat>, code: PrefixCode) {
    forall s :: s in code.symbols ==>
                  && s < |depth| && s < |pattern| && s < |code.depth| && s < |code.pattern|
                  && depth[s] == code.depth[s] && pattern[s] == code.pattern[s]
  }

  method WriteSymbol(depth: seq<nat>, pattern: seq<nat>, sym: nat, ghost code: PrefixCode, w: BitWriter)
    requires code.Fits() && sym in code.symbols && Tabulates(depth, pattern, code)
    requires w.Valid()
    modifies w, w.storage
    ensures w.Valid() && w.contents == old(w.contents) + code.Word(sym)
    ensures old(w.overflowed) ==> w.overflowed
    ensures !old(w.overflowed) && w.Roomy() ==> !w.overflowed
  {
    hide Shl, Shr, Low, Bit, BitOr, BitAnd, LittleEndian, Log2, FromBits, ToBits, BytesToBits, Represents;
    w.Write(depth[sym], pattern[sym]);
  }

  // ------------------------------------------------------------- building and storing codes

  /** A code, the tables it is written with, and its description. The code itself is over the
      alphabet, as a decoder knows it; the tables are as long as the counts. */
  datatype StoredCode = StoredCode(code: PrefixCode, depth: seq<nat>, pattern: seq<nat>, description: bits)

  /** Alphabets no larger than this are ever coded. */
  const MAX_ALPHABET := 2048

  datatype Huffman = Huffman(build: (seq<nat>, nat) -> StoredCode, read: (nat, bits) -> Read<PrefixCode>) {
    /** The code built for `counts` over `alphabet` is prefix free, gives every counted symbol a
        word, is tabulated as far as the counts run, and is what its description reads back as. */
    ghost predicate Codes(counts: seq<nat>, alphabet: nat) {
      var t := build(counts, alphabet);
      && t.code.PrefixFree() && |t.depth| == |t.pattern| == |counts| && Tabulates(t.depth, t.pattern, t.code)
      && (forall s :: 0 <= s < |counts| && counts[s] > 0 ==> s in t.code.symbols)
      && (forall rest :: read(alphabet, t.description + rest) == Got(t.code, rest))
    }

    /** Counts over at most the largest alphabet, with none for a symbol past `alphabet`. */
    ghost predicate Codable(counts: seq<nat>, alphabet: nat) {
      && 0 < |counts| <= MAX_ALPHABET && 0 < alphabet <= MAX_ALPHABET
      && (forall s :: alphabet <= s < |counts| ==> counts[s] == 0)
    }

    ghost predicate Valid() {
      forall counts, alphabet: nat :: Codable(counts, alphabet) ==> Codes(counts, alphabet)
    }
  }

  /** Writes a code description. */
  method StoreDescription(description: bits, w: BitWriter)
    requires w.Valid()
    modifies w, w.storage
    ensures w.Valid() && w.contents == old(w.contents) + description
    ensures old(w.overflowed) ==> w.overflowed
    ensures !old(w.overflowed) && w.Roomy() ==> !w.overflowed
  {
    hide Shl, Shr, Low, BitOr, BitAnd, Represents;
    assert Pow2(1) == 2;
    for i := 0 to |description|
      invariant w.Valid() && w.contents == old(w.contents) + description[..i]
      invariant old(w.overflowed) ==> w.overflowed
      invariant !old(w.overflowed) && w.Roomy() ==> !w.overflowed
    {
      var v := if description[i] then 1 else 0;
      w.Write(1, v);
      assert ToBits(1, v) == [description[i]];
      assert description[..i + 1] == description[..i] + [description[i]];
    }
    assert description[..|description|] == description;
  }

  /** `build_and_store_huffman_tree`: builds a code for the counts and writes its description. */
  method BuildAndStoreHuffmanTree(h: Huffman, counts: seq<nat>, alphabet: nat, w: BitWriter)
    returns (stored: StoredCode)
    requires w.Valid()
    modifies w, w.storage
    ensures stored == h.build(counts, alphabet)
    ensures w.Valid() && w.contents == old(w.contents) + h.build(counts, alphabet).description
    ensures old(w.overflowed) ==> w.overflowed
    ensures !old(w.overflowed) && w.Roomy() ==> !w.overflowed
  {
    hide Shl, Shr, Low, Bit, BitOr, BitAnd, LittleEndian, Represents;
    stored := h.build(counts, alphabet);
    StoreDescription(stored.description, w);
  }

  /** The symbols a bitmap lists. */
  function Listed(bitmap: bits): set<nat> {
    set s: nat | s < |bitmap| && bitmap[s]
  }

  /** A code with one fixed-width word per listed symbol. */
  function FixedCode(bitmap: bits): PrefixCode {
    PrefixCode(Listed(bitmap), seq(|bitmap|, _ => 11), seq(|bitmap|, i => i))
  }

  lemma DistinctWords(n: nat, a: nat, b: nat)
    requires a < Pow2(n) && b < Pow2(n) && a != b
    ensures ToBits(n, a) != ToBits(n, b)
    ensures !(ToBits(n, a) <= ToBits(n, b))
  {
    FromToBits(n, a);
    FromToBits(n, b);
  }

  lemma FixedCodePrefixFree(bitmap: bits)
    requires |bitmap| <= MAX_ALPHABET
    ensures FixedCode(bitmap).PrefixFree()
  {
    var c := FixedCode(bitmap);
    assert Pow2(11) == MAX_ALPHABET by { Pow2Values(); }
    forall a, b | a in c.symbols && b in c.symbols && a != b
      ensures !(c.Word(a) <= c.Word(b))
    {
      DistinctWords(11, a, b);
    }
  }

  /** Which symbols of an alphabet were counted. */
  function UsedOf(counts: seq<nat>, alphabet: nat): bits {
    seq(alphabet, s requires 0 <= s => s < |counts| && counts[s] > 0)
  }

  /** Fixed-width codes described by the symbols they list. */
  function FixedHuffman(): Huffman {
    Huffman((counts: seq<nat>, alphabet: nat) =>
              StoredCode(FixedCode(UsedOf(counts, alphabet)), seq(|counts|, _ => 11), seq(|counts|, i => i),
                         UsedOf(counts, alphabet)),
            (alphabet: nat, s: bits) =>
              if |s| < alphabet then Fail else Got(FixedCode(s[..alphabet]), s[alphabet..]))
  }

  /** Counts that run on past the last symbol used. */
  function ZeroPadded(counts: seq<nat>, k: nat): seq<nat> {
    counts + seq(k, _ => 0)
  }

  /** What `Valid` asks for can be met, and by a builder whose descriptions, like those of the
      program, do not depend on how far the counts run past the last symbol used. */
  lemma HuffmanExists() returns (h: Huffman)
    ensures h.Valid()
    ensures forall counts, alphabet: nat, k: nat ::
              h.build(ZeroPadded(counts, k), alphabet).description == h.build(counts, alphabet).description
  {
    h := FixedHuffman();
    forall counts: seq<nat>, alphabet: nat | h.Codable(counts, alphabet)
      ensures h.Codes(counts, alphabet)
    {
      var used := UsedOf(counts, alphabet);
      FixedCodePrefixFree(used);
      forall rest
        ensures h.read(alphabet, used + rest) == Got(FixedCode(used), rest)
      {
        assert (used + rest)[..alphabet] == used && (used + rest)[alphabet..] == rest;
      }
    }
    forall counts: seq<nat>, alphabet: nat, k: nat
      ensures h.build(ZeroPadded(counts, k), alphabet).description == h.build(counts, alphabet).description
    {
      assert UsedOf(ZeroPadded(counts, k), alphabet) == UsedOf(counts, alphabet);
    }
  }

  // --------------------------------------------------------------- small numbers

  /** The bits `store_var_len_uint8` writes. */
  ghost function VarLenBits(n: nat): bits {
    if n == 0 then ToBits(1, 0)
    else ToBits(1, 1) + ToBits(3, Log2(n)) + ToBits(Log2(n), n - Pow2(Log2(n)))
  }

  method StoreVarLenUint8(n: nat, w: BitWriter)
    requires w.Valid() && n < 256
    modifies w, w.storage
    ensures w.Valid() && w.contents == old(w.contents) + VarLenBits(n)
    ensures old(w.overflowed) ==> w.overflowed
    ensures !old(w.overflowed) && w.Roomy() ==> !w.overflowed
  {
    hide Shl, Shr, Low, Bit, BitOr, BitAnd, LittleEndian, Log2, FromBits, ToBits, BytesToBits, Represents;
    Pow2Values();
    if n == 0 {
      w.Write(1, 0);
      return;
    }
    var nbits := Log2(n);
    if nbits >= 8 { Pow2Monotone(8, nbits); }
    w.Write(1, 1);
    w.Write(3, nbits);
    w.Write(nbits, n - Pow2(nbits));
  }

  /** RFC 7932, section 9.2: the variable-length code of a number of types or trees, less one. */
  function ReadVarLen(s: bits): Read<nat> {
    var (present, s) :- ReadBits(1, s);
    if present == 0 then Got(0, s)
    else
      var (nbits, s) :- ReadBits(3, s);
      var (extra, s) :- ReadBits(nbits, s);
      Got(Pow2(nbits) + extra, s)
  }

  lemma VarLenRoundTrip(n: nat, rest: bits)
    requires n < 256
    ensures ReadVarLen(VarLenBits(n) + rest) == Got(n, rest)
  {
    hide Shl, Shr, Low, Bit, BitOr, BitAnd, LittleEndian, Log2, FromBits, ToBits, BytesToBits, ReadBits;
    Pow2Values();
    if n == 0 {
      ReadBitsInverts(1, 0, rest);
    } else {
      var nbits := Log2(n);
      if nbits >= 8 { Pow2Monotone(8, nbits); }
      var tail := ToBits(nbits, n - Pow2(nbits)) + rest;
      assert VarLenBits(n) + rest == ToBits(1, 1) + (ToBits(3, nbits) + tail);
      ReadBitsInverts(1, 1, ToBits(3, nbits) + tail);
      ReadBitsInverts(3, nbits, tail);
      ReadBitsInverts(nbits, n - Pow2(nbits), rest);
    }
  }
}
