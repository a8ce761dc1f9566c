/** Commands: insert and copy length classes, command symbols and the packed `Command`
    (src/shared/command.rs, with the tables of src/shared/format.rs). */
module Commands {
  import opened Bits
  import opened Distances

  const NUM_COMMAND_SYMBOLS := 704

  const INS_BASE: seq<nat> :=
    [0, 1, 2, 3, 4, 5, 6, 8, 10, 14, 18, 26, 34, 50, 66, 98, 130, 194, 322, 578, 1090, 2114, 6210, 22594]
  const INS_EXTRA: seq<nat> :=
    [0, 0, 0, 0, 0, 0, 1, 1, 2, 2, 3, 3, 4, 4, 5, 5, 6, 7, 8, 9, 10, 12, 14, 24]
  const COPY_BASE: seq<nat> :=
    [2, 3, 4, 5, 6, 7, 8, 9, 10, 12, 14, 18, 22, 30, 38, 54, 70, 102, 134, 198, 326, 582, 1094, 2118]
  const COPY_EXTRA: seq<nat> :=
    [0, 0, 0, 0, 0, 0, 0, 0, 1, 1, 2, 2, 3, 3, 4, 4, 5, 5, 6, 7, 8, 9, 10, 24]

  /** One past the largest insert and copy lengths the format expresses. */
  const INSERT_LIMIT: nat := 22594 + 0x100_0000
  const COPY_LIMIT: nat := 2118 + 0x100_0000

  // ------------------------------------------------------------------ classes of a table

  ghost predicate Ascending(base: seq<nat>) {
    forall i :: 0 <= i < |base| - 1 ==> base[i] < base[i + 1]
  }

  lemma {:induction false} AscendingOrder(base: seq<nat>, i: nat, j: nat)
    requires Ascending(base) && i <= j < |base|
    ensures base[i] <= base[j]
    decreases j
  {
    if i < j { AscendingOrder(base, i, j - 1); }
  }

  /** Class `c` of the table covers `v`. */
  ghost predicate InClass(base: seq<nat>, v: nat, c: nat) {
    c < |base| && base[c] <= v && (c + 1 < |base| ==> v < base[c + 1])
  }

  /** The loop both table searches share: climb from class `c` while the next base is reached. */
  function ClassOf(base: seq<nat>, v: nat, c: nat): (r: nat)
    requires c < |base| && base[c] <= v
    ensures InClass(base, v, r)
    decreases |base| - c
  {
    if c + 1 < |base| && v >= base[c + 1] then ClassOf(base, v, c + 1) else c
  }

  lemma ClassUnique(base: seq<nat>, v: nat, c: nat, d: nat)
    requires Ascending(base) && InClass(base, v, c) && InClass(base, v, d)
    ensures c == d
  {
    if c < d { AscendingOrder(base, c + 1, d); }
    if d < c { AscendingOrder(base, d + 1, c); }
  }

  /** How wide each class of insert lengths is, from section 5 of RFC 7932. */
  function InsertWidth(c: nat): nat
    requires c < 24
  {
    if c < 6 then 0 else if c < 16 then (c - 4) / 2 else if c < 21 then c - 10 else [12, 14, 24][c - 21]
  }

  function CopyWidth(c: nat): nat
    requires c < 24
  {
    if c < 8 then 0 else if c < 18 then (c - 6) / 2 else if c < 23 then c - 12 else 24
  }

  /** The tables are those of the standard: from nought and from two on, each class begins where the
      one before it ends. */
  lemma InsertTableTiles(c: nat)
    requires c < 24
    ensures INS_BASE[0] == 0 && INS_EXTRA[c] == InsertWidth(c)
    ensures c < 23 ==> INS_BASE[c + 1] == INS_BASE[c] + Pow2(InsertWidth(c))
  {
    hide Pow2;
    Pow2Values();
    PowZero();
    PowSteps();
  }

  lemma CopyTableTiles(c: nat)
    requires c < 24
    ensures COPY_BASE[0] == 2 && COPY_EXTRA[c] == CopyWidth(c)
    ensures c < 23 ==> COPY_BASE[c + 1] == COPY_BASE[c] + Pow2(CopyWidth(c))
  {
    hide Pow2;
    Pow2Values();
    PowZero();
    PowSteps();
  }

  lemma PowSteps()
    ensures Pow2(7) == 128 && Pow2(9) == 512 && Pow2(10) == 1024 && Pow2(12) == 4096 && Pow2(14) == 16384
  {
    Pow2Values();
  }

  // ------------------------------------------------------------------------ length codes

  function InsertLengthCode(insertLen: nat): nat {
    if insertLen < 6 then insertLen
    else if insertLen < 130 then
      var nbits := Log2(insertLen - 2) as int - 1;
      if nbits < 0 then 0 else 2 * nbits + Shr(insertLen - 2, nbits) + 2
    else if insertLen < 2114 then Log2(insertLen - 66) + 10
    else if insertLen < 6210 then 21
    else if insertLen < 22594 then 22
    else 23
  }

  /** `COPY_LENGTH_CODES`, the table of classes of the short copies. */
  method BuildCopyLengthCodes() returns (codes: array<nat>)
    ensures codes.Length == 2118
    ensures forall length :: 2 <= length < 2118 ==> codes[length] == ClassOf(COPY_BASE, length, 0)
  {
    hide InClass, ClassOf;
    codes := new nat[2118](_ => 0);
    var length, code := 2, 0;
    while length < codes.Length
      invariant 2 <= length <= 2118 && 0 <= code < 23
      invariant if length == 2 then code == 0 else InClass(COPY_BASE, length - 1, code)
      invariant forall l :: 2 <= l < length ==> codes[l] == ClassOf(COPY_BASE, l, 0)
    {
      NextCopyClass(length, code);
      if length >= COPY_BASE[code + 1] {
        code := code + 1;
      }
      codes[length] := code;
      length := length + 1;
    }
  }

  /** Consecutive lengths are in the same class or in adjacent ones. */
  lemma NextCopyClass(length: nat, code: nat)
    requires 2 <= length < 2118 && code < 23
    requires if length == 2 then code == 0 else InClass(COPY_BASE, length - 1, code)
    ensures var next := if length >= COPY_BASE[code + 1] then code + 1 else code;
            next < 23 && InClass(COPY_BASE, length, next) && ClassOf(COPY_BASE, length, 0) == next
  {
    hide ClassOf, Pow2, Log2;
    TablesAscend();
    var next := if length >= COPY_BASE[code + 1] then code + 1 else code;
    assert COPY_BASE[23] == 2118;
    ClassUnique(COPY_BASE, length, next, ClassOf(COPY_BASE, length, 0));
  }

  lemma TablesAscend()
    ensures Ascending(INS_BASE) && Ascending(COPY_BASE)
  {
  }

  function CopyLengthCode(copyLen: nat): nat
    requires copyLen >= 2
  {
    if copyLen < 10 then copyLen - 2
    else if copyLen < 2118 then ClassOf(COPY_BASE, copyLen, 0)
    else 23
  }

  lemma CopyCodeClass(copyLen: nat)
    requires copyLen >= 2
    ensures InClass(COPY_BASE, copyLen, CopyLengthCode(copyLen))
  {
    hide ClassOf;
  }

  lemma InsertCodeClass(insertLen: nat)
    ensures InClass(INS_BASE, insertLen, InsertLengthCode(insertLen))
  {
    if 6 <= insertLen < 130 {
      MiddleInsertClass(insertLen);
    } else if 130 <= insertLen < 2114 {
      var l := Log2(insertLen - 66);
      Pow2Values();
      assert Pow2(11) == 2048;
      if l < 6 { Pow2Monotone(l + 1, 6); }
      if l > 10 { Pow2Monotone(11, l); }
    }
  }

  lemma MiddleInsertClass(insertLen: nat)
    requires 6 <= insertLen < 130
    ensures InClass(INS_BASE, insertLen, InsertLengthCode(insertLen))
  {
    hide Pow2, Low, Shl, Shr, Log2;
    var v := insertLen - 2;
    var l := SmallLog2(v);
    var nbits := l - 1;
    var prefix, low := Shr(v, nbits) % 2, Low(v, nbits);
    assert v == (2 + prefix) * Pow2(nbits) + low && low < Pow2(nbits) && Shr(v, nbits) == 2 + prefix by {
      LeadingBits(v, nbits);
      LowBound(v, nbits);
      ShlTimes(2 + prefix, nbits);
    }
    assert InsertLengthCode(insertLen) == 2 * nbits + prefix + 4;
    MiddleClasses(insertLen, nbits, prefix, low);
  }

  lemma SmallLog2(v: nat) returns (l: nat)
    requires 4 <= v < 128
    ensures l == Log2(v) && 2 <= l <= 6
  {
    hide Shl, Shr;
    l := Log2(v);
    Pow2Values();
    if l > 6 { Pow2Monotone(7, l); }
  }

  lemma MiddleClasses(insertLen: nat, nbits: nat, prefix: nat, low: nat)
    requires 1 <= nbits <= 5 && prefix < 2 && low < Pow2(nbits)
    requires insertLen - 2 == (2 + prefix) * Pow2(nbits) + low
    ensures InClass(INS_BASE, insertLen, 2 * nbits + prefix + 4)
  {
    Pow2Values();
  }

  /** A class ends where the next one starts. */
  lemma InsertClassEnds(c: nat)
    requires c < 23
    ensures INS_BASE[c] + Pow2(INS_EXTRA[c]) == INS_BASE[c + 1]
  {
    hide Pow2;
    Pow2Values();
    PowZero();
  }

  lemma CopyClassEnds(c: nat)
    requires c < 23
    ensures COPY_BASE[c] + Pow2(COPY_EXTRA[c]) == COPY_BASE[c + 1]
  {
    hide Pow2;
    Pow2Values();
    PowZero();
  }

  lemma PowZero()
    ensures Pow2(0) == 1
  {
  }

  /** Within its class a length is the base plus extra bits that fit. */
  lemma InsertExtraFits(insertLen: nat)
    requires insertLen < INSERT_LIMIT
    ensures var c := InsertLengthCode(insertLen);
            c < 24 && INS_BASE[c] <= insertLen < INS_BASE[c] + Pow2(INS_EXTRA[c])
  {
    hide Pow2, Log2, Shr, ClassOf, InsertLengthCode;
    var code := InsertLengthCode(insertLen);
    InsertCodeClass(insertLen);
    if code < 23 { InsertClassEnds(code); } else { Pow2Values(); }
  }

  lemma CopyExtraFits(copyLen: nat)
    requires 2 <= copyLen < COPY_LIMIT
    ensures var c := CopyLengthCode(copyLen);
            c < 24 && COPY_BASE[c] <= copyLen < COPY_BASE[c] + Pow2(COPY_EXTRA[c])
  {
    hide Pow2, Log2, Shr, ClassOf, CopyLengthCode;
    var code := CopyLengthCode(copyLen);
    CopyCodeClass(copyLen);
    if code < 23 { CopyClassEnds(code); } else { Pow2Values(); }
  }

  /** Decoding a class and extra bits gives a length of that class again: no length has two codes. */
  lemma InsertClassesDisjoint(c: nat, extra: nat)
    requires c < 24 && extra < Pow2(INS_EXTRA[c])
    ensures InsertLengthCode(INS_BASE[c] + extra) == c
  {
    hide Pow2, Shl, Shr, Low, BitOr, BitAnd, Log2, ClassOf, InsertLengthCode;
    TablesAscend();
    if c < 23 { InsertClassEnds(c); }
    InsertCodeClass(INS_BASE[c] + extra);
    ClassUnique(INS_BASE, INS_BASE[c] + extra, c, InsertLengthCode(INS_BASE[c] + extra));
  }

  lemma CopyClassesDisjoint(c: nat, extra: nat)
    requires c < 24 && extra < Pow2(COPY_EXTRA[c])
    ensures CopyLengthCode(COPY_BASE[c] + extra) == c
  {
    hide Pow2, Shl, Shr, Low, BitOr, BitAnd, Log2, ClassOf, CopyLengthCode;
    TablesAscend();
    if c < 23 { CopyClassEnds(c); }
    CopyCodeClass(COPY_BASE[c] + extra);
    ClassUnique(COPY_BASE, COPY_BASE[c] + extra, c, CopyLengthCode(COPY_BASE[c] + extra));
  }

  // --------------------------------------------------------------------- command symbols

  function CombineLengthCodes(insCode: nat, copyCode: nat, useLastDistance: bool): nat {
    var bits64 := BitOr(copyCode % 8, Shl(insCode % 8, 3));
    if useLastDistance && insCode < 8 && copyCode < 16 then
      if copyCode < 8 then bits64 else BitOr(bits64, 64)
    else
      BitOr(CellOffset(2 * (copyCode / 8 + 3 * (insCode / 8))) % U16, bits64)
  }

  /** `(offset << 5) + 0x40 + ((0x52_0D40 >> offset) & 0xC0)` */
  function CellOffset(offset: nat): nat {
    Shl(offset, 5) + 0x40 + BitAnd(Shr(0x52_0D40, offset), 0xC0)
  }

  function LengthCode(insertLen: nat, copyLen: nat, useLastDistance: bool): nat
    requires copyLen >= 2
  {
    CombineLengthCodes(InsertLengthCode(insertLen), CopyLengthCode(copyLen), useLastDistance)
  }

  /** RFC 7932, section 5: the insert and copy codes a cell of 64 symbols starts from. */
  const CELL_INSERT: seq<nat> := [0, 0, 0, 0, 8, 8, 0, 16, 8, 16, 16]
  const CELL_COPY: seq<nat> := [0, 8, 0, 8, 0, 8, 16, 0, 16, 8, 16]

  /** RFC 7932, section 5: insert code, copy code, and whether distance code zero is implied. */
  function SplitCommandSymbol(symbol: nat): (nat, nat, bool)
    requires symbol < NUM_COMMAND_SYMBOLS
  {
    (CELL_INSERT[symbol / 64] + symbol / 8 % 8, CELL_COPY[symbol / 64] + symbol % 8, symbol < 128)
  }

  /** `(0x52_0D40 >> offset) & 0xC0` is a two-bit field of the constant. */
  lemma MagicField(magic: nat, offset: nat, mask: nat)
    requires mask == Shl(3, 6)
    ensures BitAnd(Shr(magic, offset), mask) == 64 * (Shr(magic, offset + 6) % 4)
  {
    var field := Shr(magic, offset + 6);
    BitAndShl(Shr(magic, offset), 3, 6);
    ShrShr(magic, offset, 6);
    assert BitAnd(field, 3) == field % 4 by {
      assert Pow2(2) == 4;
      BitAndMask(2, field);
      LowTwo(field);
    }
    ShlTimes(field % 4, 6);
    assert Pow2(6) == 64;
  }

  lemma LowTwo(v: nat)
    ensures Low(v, 2) == v % 4
  {
    assert Low(v / 2 / 2, 0) == 0;
    assert Low(v / 2, 1) == v / 2 % 2;
  }

  lemma ShrTwo(v: nat, n: nat)
    ensures Shr(v, n + 2) == Shr(v, n) / 4
  {
    ShrShr(v, n, 2);
    assert Shr(Shr(v, n), 2) == Shr(Shr(v, n) / 2, 1) == Shr(v, n) / 2 / 2;
  }

  /** The fields of the constant the nine cells read, and the two bits of each they keep. */
  function MagicBits(cell: nat): nat {
    if cell == 2 then 3 else if cell == 5 then 2 else if cell == 0 || cell == 1 || cell >= 7 then 1 else 0
  }

  /** Four fields further up the constant. */
  lemma MagicFields(m: nat, n: nat, v: nat, a: nat, b: nat, c: nat, d: nat)
    requires Shr(m, n) == v && v / 4 == a && a / 4 == b && b / 4 == c && c / 4 == d
    ensures Shr(m, n + 2) == a && Shr(m, n + 4) == b && Shr(m, n + 6) == c && Shr(m, n + 8) == d
  {
    ShrTwo(m, n);
    ShrTwo(m, n + 2);
    ShrTwo(m, n + 4);
    ShrTwo(m, n + 6);
  }

  lemma MagicShift(m: nat, k: nat)
    requires m == 0x52_0D40 && k <= 8
    ensures Shr(m, 2 * k + 6) % 4 == MagicBits(k)
  {
    hide Pow2, Shl, Low, BitOr, BitAnd, Log2;
    MagicFields(m, 0, m, 0x14_8350, 0x5_20D4, 0x1_4835, 0x520D);
    MagicFields(m, 8, 0x520D, 0x1483, 0x520, 0x148, 0x52);
    MagicFields(m, 16, 0x52, 0x14, 5, 1, 0);
  }

  /** Cells by insert row and copy column when the distance is not implied. */
  function Cell(insCell: nat, copyCell: nat): nat {
    if insCell == 0 then (if copyCell == 0 then 2 else if copyCell == 1 then 3 else 6)
    else if insCell == 1 then (if copyCell == 0 then 4 else if copyCell == 1 then 5 else 8)
    else (if copyCell == 0 then 7 else if copyCell == 1 then 9 else 10)
  }

  /** The cell the shifted magic constant selects. */
  lemma MagicCell(insCell: nat, copyCell: nat)
    requires copyCell < 3 && insCell < 3
    ensures CellOffset(2 * (copyCell + 3 * insCell)) == 64 * Cell(insCell, copyCell)
  {
    hide Pow2, Shl, Shr, Low, BitOr, BitAnd, Log2;
    MagicTop(copyCell + 3 * insCell);
    TimesThirtyTwo(copyCell + 3 * insCell);
  }

  lemma MagicCellFits(insCell: nat, copyCell: nat)
    requires copyCell < 3 && insCell < 3
    ensures CellOffset(2 * (copyCell + 3 * insCell)) % U16 == 64 * Cell(insCell, copyCell)
  {
    MagicCell(insCell, copyCell);
    SmallModulo(CellOffset(2 * (copyCell + 3 * insCell)), 64 * Cell(insCell, copyCell));
  }

  lemma SmallModulo(v: nat, w: nat)
    requires v == w < U16
    ensures v % U16 == w
  {
  }

  lemma TimesThirtyTwo(k: nat)
    ensures Shl(2 * k, 5) == 64 * k
  {
    ShlTimes(2 * k, 5);
    assert Pow2(5) == 32;
  }

  lemma MagicTop(k: nat)
    requires k <= 8
    ensures BitAnd(Shr(0x52_0D40, 2 * k), 0xC0) == 64 * MagicBits(k)
  {
    assert Shl(3, 6) == 0xC0 by {
      ShlTimes(3, 6);
      assert Pow2(6) == 64;
    }
    MagicField(0x52_0D40, 2 * k, 0xC0);
    MagicShift(0x52_0D40, k);
  }

  /** The symbol as a cell and a position inside it. */
  lemma CombinedValue(insCode: nat, copyCode: nat, useLastDistance: bool)
    requires insCode < 24 && copyCode < 24
    ensures CombineLengthCodes(insCode, copyCode, useLastDistance)
         == copyCode % 8 + 8 * (insCode % 8)
            + 64 * if useLastDistance && insCode < 8 && copyCode < 16 then copyCode / 8
                   else Cell(insCode / 8, copyCode / 8)
  {
    hide Pow2, Shl, Shr, Low, BitOr, BitAnd, Log2, CellOffset;
    CombinedIn(insCode / 8, insCode % 8, copyCode / 8, copyCode % 8, useLastDistance);
  }

  lemma CombinedIn(insCell: nat, i: nat, copyCell: nat, c: nat, useLastDistance: bool)
    requires insCell < 3 && copyCell < 3 && i < 8 && c < 8
    ensures CombineLengthCodes(8 * insCell + i, 8 * copyCell + c, useLastDistance)
         == c + 8 * i
            + 64 * if useLastDistance && insCell == 0 && copyCell < 2 then copyCell else Cell(insCell, copyCell)
  {
    hide Pow2, Shl, Shr, Low, BitOr, BitAnd, Log2, CellOffset;
    CombineUnfolds(insCell, i, copyCell, c, useLastDistance);
    OrCell(c + 8 * i, 1);
    OrCell(c + 8 * i, Cell(insCell, copyCell));
  }

  lemma PackedLow(i: nat, c: nat)
    requires i < 8 && c < 8
    ensures BitOr(c, Shl(i, 3)) == c + 8 * i
  {
    assert Pow2(3) == 8;
    ShlTimes(i, 3);
    BitOrDisjoint(3, c, i);
  }

  lemma CombineUnfolds(insCell: nat, i: nat, copyCell: nat, c: nat, useLastDistance: bool)
    requires insCell < 3 && copyCell < 3 && i < 8 && c < 8
    ensures CombineLengthCodes(8 * insCell + i, 8 * copyCell + c, useLastDistance)
         == if useLastDistance && insCell == 0 && copyCell < 2
            then (if copyCell == 0 then c + 8 * i else BitOr(c + 8 * i, 64))
            else BitOr(64 * Cell(insCell, copyCell), c + 8 * i)
  {
    hide Pow2, Shl, Shr, Low, BitOr, BitAnd, Log2, CellOffset;
    PackedLow(i, c);
    MagicCellFits(insCell, copyCell);
    var insCode, copyCode := 8 * insCell + i, 8 * copyCell + c;
    assert insCode / 8 == insCell && insCode % 8 == i && copyCode / 8 == copyCell && copyCode % 8 == c;
  }

  lemma OrCell(low: nat, cell: nat)
    requires low < 64
    ensures BitOr(low, 64 * cell) == low + 64 * cell == BitOr(64 * cell, low)
  {
    assert Pow2(6) == 64;
    ShlTimes(cell, 6);
    BitOrCommutes(64 * cell, low);
    BitOrDisjoint(6, low, cell);
  }

  /** Section 5 of RFC 7932 splits the symbol back into its two codes; the distance is implied
      exactly when it may be and both codes are in the first cells. */
  lemma CommandSymbolRoundTrip(insCode: nat, copyCode: nat, useLastDistance: bool)
    requires insCode < 24 && copyCode < 24
    ensures var symbol := CombineLengthCodes(insCode, copyCode, useLastDistance);
            && symbol < NUM_COMMAND_SYMBOLS
            && SplitCommandSymbol(symbol) == (insCode, copyCode, useLastDistance && insCode < 8 && copyCode < 16)
  {
    hide Pow2, Shl, Shr, Low, BitOr, BitAnd, Log2, CellOffset, CombineLengthCodes;
    CombinedValue(insCode, copyCode, useLastDistance);
    var implied := useLastDistance && insCode < 8 && copyCode < 16;
    var cell := if implied then copyCode / 8 else Cell(insCode / 8, copyCode / 8);
    CellCodes(insCode / 8, copyCode / 8);
    PositionInCell(cell, insCode % 8, copyCode % 8);
  }

  lemma PositionInCell(cell: nat, i: nat, c: nat)
    requires i < 8 && c < 8
    ensures var symbol := c + 8 * i + 64 * cell;
            symbol / 64 == cell && symbol / 8 % 8 == i && symbol % 8 == c
  {
  }

  lemma CellCodes(insCell: nat, copyCell: nat)
    requires insCell < 3 && copyCell < 3
    ensures 2 <= Cell(insCell, copyCell) < 11
    ensures CELL_INSERT[Cell(insCell, copyCell)] == 8 * insCell && CELL_COPY[Cell(insCell, copyCell)] == 8 * copyCell
  {
  }

  lemma CellTable(cell: nat)
    requires cell < 11
    ensures CELL_INSERT[cell] % 8 == 0 && CELL_COPY[cell] % 8 == 0
    ensures CELL_INSERT[cell] / 8 < 3 && CELL_COPY[cell] / 8 < 3
    ensures if cell < 2 then CELL_INSERT[cell] == 0 && CELL_COPY[cell] == 8 * cell
            else Cell(CELL_INSERT[cell] / 8, CELL_COPY[cell] / 8) == cell
  {
  }

  /** Every command symbol is the combination of the codes it splits into. */
  lemma CommandSymbolsAllUsed(symbol: nat)
    requires symbol < NUM_COMMAND_SYMBOLS
    ensures var (insCode, copyCode, implied) := SplitCommandSymbol(symbol);
            insCode < 24 && copyCode < 24 && CombineLengthCodes(insCode, copyCode, implied) == symbol
  {
    hide Pow2, Shl, Shr, Low, BitOr, BitAnd, Log2, CellOffset, CombineLengthCodes;
    var cell := symbol / 64;
    CellTable(cell);
    var insCell, copyCell := CELL_INSERT[cell] / 8, CELL_COPY[cell] / 8;
    assert CELL_INSERT[cell] == 8 * insCell && CELL_COPY[cell] == 8 * copyCell;
    assert symbol == symbol % 8 + 8 * (symbol / 8 % 8) + 64 * cell;
    CombinedIn(insCell, symbol / 8 % 8, copyCell, symbol % 8, symbol < 128);
  }
}
