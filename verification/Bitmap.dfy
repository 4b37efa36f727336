/** A bitmap of small units packed into cells, as an array of unit values. */
module Bitmap {
  import opened PowerOfTwo
  import opened BitString

  const UINT32 := 0x1_0000_0000

  datatype Status = Ok | InvalidParameter

  /** The cell types, and the machine word a pointer cell stands for. */
  datatype CellType = Cell1B | Cell2B | Cell4B | Cell8B | CellPtr

  function CellBits(t: CellType): nat {
    match t
    case Cell1B => 8
    case Cell2B => 16
    case Cell4B => 32
    case Cell8B => 64
    case CellPtr => 64
  }

  /** A packing bitmap_create accepts. */
  predicate Packs(cell: nat, unit: nat) {
    (cell == 8 || cell == 16 || cell == 32 || cell == 64) && 0 < unit < cell && cell % unit == 0
  }

  /** The field of unit bits, shift bits up. */
  function Field(w: Word, shift: nat, unit: nat): (r: Word)
    requires shift + unit <= |w|
    ensures |r| == unit
  {
    w[|w| - shift - unit..|w| - shift]
  }

  /** The mask of a field. */
  function Mask(cell: nat, shift: nat, unit: nat): Word
    requires shift + unit <= cell
  {
    Shl(Zeros(cell - unit) + seq(unit, _ => true), shift)
  }

  /** A value shifted to its place. */
  function Place(cell: nat, shift: nat, pattern: Word): Word
    requires shift + |pattern| <= cell
  {
    Shl(Zeros(cell - |pattern|) + pattern, shift)
  }

  /** Clearing the mask and adding the value changes the one field. */
  lemma SetField(w: Word, shift: nat, pattern: Word)
    requires shift + |pattern| <= |w|
    ensures var r := Or(AndNot(w, Mask(|w|, shift, |pattern|)), Place(|w|, shift, pattern));
      && Field(r, shift, |pattern|) == pattern
      && forall i | 0 <= i < |w| && !(|w| - shift - |pattern| <= i < |w| - shift) :: r[i] == w[i]
  {
  }

  /** Shifting down and masking reads the field. */
  lemma GetField(w: Word, shift: nat, unit: nat)
    requires shift + unit <= |w|
    ensures Low(Shr(w, shift), unit) == Zeros(|w| - unit) + Field(w, shift, unit)
  {
  }

  /** A change that spares a field's bits spares the field. */
  lemma FieldKept(w: Word, r: Word, shift: nat, at: nat, unit: nat)
    requires |r| == |w| && shift + unit <= |w| && at + unit <= |w| && (at + unit <= shift || shift + unit <= at)
    requires forall i | 0 <= i < |w| && !(|w| - shift - unit <= i < |w| - shift) :: r[i] == w[i]
    ensures Field(r, at, unit) == Field(w, at, unit)
  {
  }

  lemma UnitSizes(cell: nat, unit: nat)
    requires Packs(cell, unit)
    ensures unit == 1 || unit == 2 || unit == 4 || unit == 8 || unit == 16 || unit == 32
    ensures unit > 8 ==> cell >= 32
  {
    var n := cell / unit;
    assert cell == n * unit && 2 <= n;
    MulMono(2, n, unit);
  }

  lemma MulMono(a: nat, b: nat, c: nat)
    requires a <= b
    ensures a * c <= b * c
  {
  }

  lemma UnitFits(cell: nat, unit: nat, t: nat)
    requires Packs(cell, unit) && t < cell / unit
    ensures t * unit + unit <= cell
  {
    var upc := cell / unit;
    assert upc * unit == cell;
    MulMono(t + 1, upc, unit);
    assert (t + 1) * unit == t * unit + unit;
  }

  lemma CellExists(upc: nat, unit: nat, cells: nat, count: nat, k: nat)
    requires upc > 0 && unit > 0 && k < count && count * unit <= cells * (upc * unit)
    ensures k / upc < cells
  {
    var q := k / upc;
    assert q * upc <= k;
    assert cells * (upc * unit) == (cells * upc) * unit;
    if q >= cells {
      MulMono(cells, q, upc);
      MulMono(cells * upc, k, unit);
      assert (k + 1) * unit == k * unit + unit;
      MulMono(k + 1, count, unit);
      assert false;
    }
  }

  /** The cells have a field for every unit. */
  predicate Room(cell: nat, unit: nat, cells: nat, count: nat) { count * unit <= cells * cell }

  function UnitsPerCell(cell: nat, unit: nat): (n: nat)
    requires Packs(cell, unit)
    ensures n > 0
  {
    cell / unit
  }

  /** The cell unit k lives in, and how far up its field is. */
  function CellOf(upc: nat, k: nat): nat
    requires upc > 0
  {
    k / upc
  }

  function ShiftOf(upc: nat, unit: nat, k: nat): nat
    requires upc > 0
  {
    (k % upc) * unit
  }

  lemma CellWidth(cell: nat, unit: nat, cells: nat)
    requires Packs(cell, unit)
    ensures UnitsPerCell(cell, unit) * unit == cell && cells * cell == cells * (UnitsPerCell(cell, unit) * unit)
  {
  }

  lemma UnitPlace(cell: nat, unit: nat, cells: nat, count: nat, k: nat)
    requires Packs(cell, unit) && k < count && Room(cell, unit, cells, count)
    ensures var upc := UnitsPerCell(cell, unit);
      && CellOf(upc, k) < cells && ShiftOf(upc, unit, k) + unit <= cell
  {
    var upc := UnitsPerCell(cell, unit);
    CellWidth(cell, unit, cells);
    CellExists(upc, unit, cells, count, k);
    UnitFits(cell, unit, k % upc);
  }

  /** Two units of one cell have fields apart. */
  lemma FieldsApart(upc: nat, unit: nat, a: nat, b: nat)
    requires a < upc && b < upc && a != b
    ensures a * unit + unit <= b * unit || b * unit + unit <= a * unit
  {
    if a < b {
      MulMono(a + 1, b, unit);
      assert (a + 1) * unit == a * unit + unit;
    } else {
      MulMono(b + 1, a, unit);
      assert (b + 1) * unit == b * unit + unit;
    }
  }

  lemma SameCell(upc: nat, unit: nat, a: nat, b: nat)
    requires upc > 0 && a != b && CellOf(upc, a) == CellOf(upc, b)
    ensures ShiftOf(upc, unit, a) + unit <= ShiftOf(upc, unit, b) || ShiftOf(upc, unit, b) + unit <= ShiftOf(upc, unit, a)
  {
    var q := a / upc;
    assert a == q * upc + a % upc && b == q * upc + b % upc;
    FieldsApart(upc, unit, a % upc, b % upc);
  }

  /** Changing the field of unit k spares the fields of the other units in its cell. */
  lemma NeighbourKept(before: Word, after: Word, upc: nat, unit: nat, k: nat, other: nat)
    requires upc > 0 && k != other && CellOf(upc, k) == CellOf(upc, other) && |after| == |before|
    requires ShiftOf(upc, unit, k) + unit <= |before| && ShiftOf(upc, unit, other) + unit <= |before|
    requires var shift := ShiftOf(upc, unit, k);
      forall i | 0 <= i < |before| && !(|before| - shift - unit <= i < |before| - shift) :: after[i] == before[i]
    ensures Field(after, ShiftOf(upc, unit, other), unit) == Field(before, ShiftOf(upc, unit, other), unit)
  {
    hide CellOf, ShiftOf, Field;
    SameCell(upc, unit, k, other);
    FieldKept(before, after, ShiftOf(upc, unit, k), ShiftOf(upc, unit, other), unit);
  }

  /** num_cells of bitmap_size, in 32-bit arithmetic. */
  function NumCells(cell: nat, unit: nat, count: nat): nat
    requires cell > 0
  {
    var bits: nat := (count * unit + cell - 1) % UINT32;
    bits / cell
  }

  predicate NoOverflow(cell: nat, unit: nat, count: nat) {
    count * unit + cell - 1 < 0x1_0000_0000
  }

  /** There is room for every unit if and only if the size computation does not overflow. */
  lemma RoomIff(cell: nat, unit: nat, count: nat)
    requires Packs(cell, unit) && 0 < count
    ensures Room(cell, unit, NumCells(cell, unit, count), count) <==> NoOverflow(cell, unit, count)
  {
    var m := (count * unit + cell - 1) % UINT32;
    assert NumCells(cell, unit, count) * cell == AlignDown(m, cell);
    hide *;
    CellsHold(count * unit, cell, m, AlignDown(m, cell));
  }

  lemma CellsHold(bits: nat, cell: nat, m: nat, cells: nat)
    requires 0 < cell <= 64 && m == (bits + cell - 1) % UINT32 && cells <= m < cells + cell
    ensures bits <= cells <==> bits + cell - 1 < UINT32
  {
    var t := bits + cell - 1;
    if t >= UINT32 {
      assert m <= t - UINT32;
    }
  }

  class PackedBitmap {
    const cellSize: nat
    const unitsPerCell: nat
    const unitSize: nat
    const unitCount: nat
    const unitInit: nat
    const data: array<Word>

    /** Every cell has its size, and the initial value fits a unit. */
    ghost predicate Shaped()
      reads this, data
    {
      && Packs(cellSize, unitSize) && unitsPerCell == UnitsPerCell(cellSize, unitSize)
      && unitInit < Power2(unitSize)
      && forall c | 0 <= c < data.Length :: |data[c]| == cellSize
    }

    /** And every unit has a cell. */
    ghost predicate Valid()
      reads this, data
    {
      Shaped() && Room(cellSize, unitSize, data.Length, unitCount)
    }

    ghost function Unit(k: nat): (w: Word)
      requires Valid() && k < unitCount
      reads this, data
      ensures |w| == unitSize
    {
      UnitPlace(cellSize, unitSize, data.Length, unitCount, k);
      Field(data[CellOf(unitsPerCell, k)], ShiftOf(unitsPerCell, unitSize, k), unitSize)
    }

    /** The array of unit values the bitmap stands for, whatever its cells. */
    ghost function Units(): (u: seq<nat>)
      requires Valid()
      reads this, data
      ensures |u| == unitCount
    {
      seq(unitCount, k requires 0 <= k < unitCount && Valid() reads this, data => Value(Unit(k)))
    }

    constructor (cell: nat, unit: nat, count: nat, init: nat)
      requires Packs(cell, unit) && count > 0 && init < Power2(unit)
      ensures cellSize == cell && unitSize == unit && unitCount == count && unitInit == init
      ensures unitsPerCell == UnitsPerCell(cell, unit) && data.Length == NumCells(cell, unit, count) && fresh(data)
      ensures forall c | 0 <= c < data.Length :: |data[c]| == cell
    {
      cellSize, unitSize, unitCount, unitInit, unitsPerCell := cell, unit, count, init, UnitsPerCell(cell, unit);
      data := new Word[NumCells(cell, unit, count)](_ => Zeros(cell));
    }

    /** bitmap_set */
    method Set(unit: nat, val: nat) returns (st: Status)
      requires Valid()
      modifies data
      ensures Valid()
      ensures unit >= unitCount || val >= Power2(unitSize) ==> st == InvalidParameter && Units() == old(Units())
      ensures unit < unitCount && val < Power2(unitSize) ==> st == Ok && Units() == old(Units())[unit := val]
    {
      if unit >= unitCount || val > Power2(unitSize) - 1 {
        return InvalidParameter;
      }
      hide Packs, Room, UnitsPerCell, CellOf, ShiftOf, Or, AndNot, Mask, Place, ToWord, Value, Field;
      UnitPlace(cellSize, unitSize, data.Length, unitCount, unit);
      var index, shift := CellOf(unitsPerCell, unit), ShiftOf(unitsPerCell, unitSize, unit);
      var pattern := ToWord(val, unitSize);
      ghost var before := data[index];
      ghost var was := Units();
      SetField(before, shift, pattern);
      data[index] := Or(AndNot(data[index], Mask(cellSize, shift, unitSize)), Place(cellSize, shift, pattern));
      ValueToWord(val, unitSize);
      assert Unit(unit) == pattern;
      ghost var after := data[index];
      forall k | 0 <= k < unitCount && k != unit ensures Unit(k) == old(Unit(k)) {
        UnitPlace(cellSize, unitSize, data.Length, unitCount, k);
        if CellOf(unitsPerCell, k) == index {
          NeighbourKept(before, after, unitsPerCell, unitSize, unit, k);
        }
      }
      assert Units() == was[unit := val];
      st := Ok;
    }

    /** bitmap_get */
    method Get(unit: nat) returns (st: Status, val: nat)
      requires Valid()
      ensures unit >= unitCount ==> st == InvalidParameter
      ensures unit < unitCount ==> st == Ok && val == Units()[unit] < Power2(unitSize)
    {
      if unit >= unitCount {
        return InvalidParameter, 0;
      }
      hide Packs, Room, UnitsPerCell, CellOf, ShiftOf, Shr, Low, Value, Field;
      UnitPlace(cellSize, unitSize, data.Length, unitCount, unit);
      var index, shift := CellOf(unitsPerCell, unit), ShiftOf(unitsPerCell, unitSize, unit);
      GetField(data[index], shift, unitSize);
      ValueLeadingZeros(cellSize - unitSize, Unit(unit));
      ValueBound(Unit(unit));
      return Ok, Value(Low(Shr(data[index], shift), unitSize));
    }

    /** bitmap_reset: builds the fill pattern and writes it by bytes for small units, by cells for large ones. */
    method Reset()
      requires Shaped()
      modifies data
      ensures Shaped()
      ensures Valid() ==> Units() == seq(unitCount, _ => unitInit)
    {
      hide Packs, Room, CellOf, ShiftOf, Or, Shl, ToWord, Value, Field, Repeats, RepeatByte, UnitsPerCell;
      ghost var pattern := ToWord(unitInit, unitSize);
      var fill := FillPattern();
      CellBytes(cellSize, unitSize);
      var cell: Word;
      if unitSize <= 8 {
        cell := RepeatByte(fill[56..], cellSize / 8);
        ByteFill(fill, cellSize, unitSize, pattern, 8 / unitSize);
        FillBytes(fill[56..]);
      } else {
        cell := fill[64 - cellSize..];
        CellFill(fill, cellSize, unitSize, pattern, cellSize / unitSize);
        FillCells(cell);
      }
      ValueToWord(unitInit, unitSize);
      if Valid() {
        forall k | 0 <= k < unitCount ensures Value(Unit(k)) == unitInit {
          UnitPlace(cellSize, unitSize, data.Length, unitCount, k);
          UnitIsField(cell, unitsPerCell, unitSize, k, pattern);
        }
        assert Units() == seq(unitCount, _ => unitInit);
      }
    }

    /** The loop that builds the pattern: eight bits of it for small units, a cell of it for large ones. */
    method FillPattern() returns (fill: Word)
      requires Shaped()
      ensures |fill| == 64
      ensures var n := (if unitSize <= 8 then 8 else cellSize) / unitSize;
        && n * unitSize == (if unitSize <= 8 then 8 else cellSize)
        && Repeats(fill, n, unitSize, ToWord(unitInit, unitSize))
    {
      hide Packs, Room, Or, Shl, ToWord, Repeats, Power2;
      NoneRepeats(Zeros(64), unitSize, ToWord(unitInit, unitSize));
      fill := Zeros(64);
      var bits: nat := if unitSize <= 8 then 8 else cellSize;
      ghost var total: nat, n: nat := bits, 0;
      PatternWidth(cellSize, unitSize);
      while bits > 0
        invariant |fill| == 64 && total == bits + n * unitSize && bits % unitSize == 0
        invariant Repeats(fill, n, unitSize, ToWord(unitInit, unitSize))
        decreases bits
      {
        OneLess(bits, unitSize, n, total);
        NextFill(fill, n, unitSize, unitInit);
        fill := Or(Shl(fill, unitSize), ToWord(unitInit, 64));
        bits := bits - unitSize;
        n := n + 1;
      }
      DivModUnique(total, unitSize, n, 0);
    }

    /** memset over all cells */
    method FillBytes(b: Word)
      requires |b| == 8 && cellSize % 8 == 0 && forall c | 0 <= c < data.Length :: |data[c]| == cellSize
      modifies data
      ensures forall c | 0 <= c < data.Length :: data[c] == RepeatByte(b, cellSize / 8)
    {
      for c := 0 to data.Length
        invariant forall j | 0 <= j < c :: data[j] == RepeatByte(b, cellSize / 8)
      {
        data[c] := RepeatByte(b, cellSize / 8);
      }
    }

    method FillCells(cell: Word)
      modifies data
      ensures forall c | 0 <= c < data.Length :: data[c] == cell
    {
      for c := 0 to data.Length
        invariant forall j | 0 <= j < c :: data[j] == cell
      {
        data[c] := cell;
      }
    }
  }

  /** bitmap_create: succeeds for every packing it accepts; the bitmap has room for all its units,
      and then all of them hold the initial value, if and only if the size computation did not overflow. */
  method Create(t: CellType, unit: nat, count: nat, init: nat) returns (st: Status, bm: PackedBitmap?)
    ensures unit == 0 || count == 0 || !Packs(CellBits(t), unit) || init >= Power2(unit) <==> st == InvalidParameter
    ensures st == InvalidParameter <==> bm == null
    ensures st == Ok ==> fresh(bm) && fresh(bm.data) && bm.unitCount == count && bm.unitSize == unit
    ensures st == Ok ==> (bm.Valid() <==> NoOverflow(CellBits(t), unit, count))
    ensures st == Ok && bm.Valid() ==> bm.Units() == seq(count, _ => init)
  {
    bm := null;
    if unit == 0 || count == 0 {
      return InvalidParameter, bm;
    }
    var cell := CellBits(t);
    if cell % unit != 0 || unit >= cell {
      return InvalidParameter, bm;
    }
    if init > Power2(unit) - 1 {
      return InvalidParameter, bm;
    }
    bm := new PackedBitmap(cell, unit, count, init);
    RoomIff(cell, unit, count);
    bm.Reset();
    st := Ok;
  }

  /** The lowest n fields all hold the pattern. */
  predicate Repeats(w: Word, n: nat, unit: nat, pattern: Word) {
    forall t | 0 <= t < n :: FieldIs(w, t, unit, pattern)
  }

  lemma NoneRepeats(w: Word, unit: nat, pattern: Word)
    ensures Repeats(w, 0, unit, pattern)
  {
  }

  lemma PatternWidth(cell: nat, unit: nat)
    requires Packs(cell, unit)
    ensures var total := if unit <= 8 then 8 else cell;
      0 < unit && total <= 64 && total % unit == 0
  {
    UnitSizes(cell, unit);
  }

  predicate FieldIs(w: Word, t: nat, unit: nat, pattern: Word) {
    t * unit + unit <= |w| && Field(w, t * unit, unit) == pattern
  }

  lemma UnitIsField(w: Word, upc: nat, unit: nat, k: nat, pattern: Word)
    requires upc > 0 && Repeats(w, upc, unit, pattern)
    ensures ShiftOf(upc, unit, k) + unit <= |w| && Field(w, ShiftOf(upc, unit, k), unit) == pattern
  {
    assert FieldIs(w, k % upc, unit, pattern);
  }

  lemma CellBytes(cell: nat, unit: nat)
    requires Packs(cell, unit)
    ensures cell % 8 == 0 && cell / 8 * 8 == cell && cell <= 64
  {
  }

  /** The fill loop's counter: a whole unit is left, and one more fits. */
  lemma OneLess(bits: nat, unit: nat, n: nat, total: nat)
    requires unit > 0 && bits > 0 && bits % unit == 0 && total == bits + n * unit && total <= 64
    ensures bits >= unit && (bits - unit) % unit == 0
    ensures n * unit + unit <= 64 && (n + 1) * unit == n * unit + unit
  {
    MultiplesApart(0, bits, unit);
    assert unit % unit == 0 by { DivModUnique(unit, unit, 1, 0); }
    ModSub(unit, bits, unit);
  }

  /** One more turn of the fill loop moves the fields up and adds one below. */
  lemma NextFill(fill: Word, n: nat, unit: nat, init: nat)
    requires |fill| == 64 && init < Power2(unit) && n * unit + unit <= 64
    requires Repeats(fill, n, unit, ToWord(init, unit))
    ensures Repeats(Or(Shl(fill, unit), ToWord(init, 64)), n + 1, unit, ToWord(init, unit))
  {
    hide ToWord, Or, Shl, FieldIs;
    var pattern, low := ToWord(init, unit), ToWord(init, 64);
    var r := Or(Shl(fill, unit), low);
    FieldUp(0, n, unit);
    ToWordWiden(init, unit, 64);
    forall t | 0 <= t < n + 1 ensures FieldIs(r, t, unit, pattern) {
      if t == 0 {
        LowestField(fill, low, pattern);
      } else {
        assert FieldIs(fill, t - 1, unit, pattern);
        NextField(fill, t, n, unit, low, pattern);
      }
    }
  }

  lemma NextField(fill: Word, t: nat, n: nat, unit: nat, low: Word, pattern: Word)
    requires |fill| == |low| == 64 && 0 < t <= n && n * unit + unit <= 64 && |pattern| == unit
    requires low == Zeros(64 - unit) + pattern && FieldIs(fill, t - 1, unit, pattern)
    ensures FieldIs(Or(Shl(fill, unit), low), t, unit, pattern)
  {
    hide Or, Shl, Field;
    FieldUp(t, n, unit);
    var at := (t - 1) * unit;
    assert forall i | 0 <= i < |low| - unit :: !low[i];
    FieldMoves(fill, at, unit, low);
  }

  lemma FieldUp(t: nat, n: nat, unit: nat)
    requires t <= n && n * unit + unit <= 64
    ensures unit <= 64 && (t > 0 ==> (t - 1) * unit + unit == t * unit) && t * unit + unit <= 64
  {
    MulMono(0, n, unit);
    MulMono(t, n, unit);
  }

  lemma LowestField(fill: Word, low: Word, pattern: Word)
    requires |fill| == |low| && |pattern| <= |low| && low == Zeros(|low| - |pattern|) + pattern
    ensures FieldIs(Or(Shl(fill, |pattern|), low), 0, |pattern|, pattern)
  {
    assert Field(Or(Shl(fill, |pattern|), low), 0, |pattern|) == pattern;
  }

  /** Shifting up by a unit moves a field up; a value below a unit does not reach it. */
  lemma FieldMoves(fill: Word, at: nat, unit: nat, low: Word)
    requires |fill| == |low| && at + unit + unit <= |fill|
    requires forall i | 0 <= i < |low| - unit :: !low[i]
    ensures Field(Or(Shl(fill, unit), low), at + unit, unit) == Field(fill, at, unit)
  {
  }

  /** memset: a cell of n equal bytes. */
  function RepeatByte(b: Word, n: nat): (r: Word)
    requires |b| == 8
    ensures |r| == 8 * n && forall i | 0 <= i < |r| :: r[i] == b[i % 8]
  {
    seq(8 * n, i requires 0 <= i < 8 * n => b[i % 8])
  }

  lemma ByteFill(fill: Word, cell: nat, unit: nat, pattern: Word, n: nat)
    requires |fill| == 64 && Packs(cell, unit) && unit <= 8 && n * unit == 8 && |pattern| == unit
    requires Repeats(fill, n, unit, pattern)
    ensures cell / 8 * 8 == cell
    ensures Repeats(RepeatByte(fill[56..], cell / 8), UnitsPerCell(cell, unit), unit, pattern)
  {
    hide RepeatByte, Field;
    CellBytes(cell, unit);
    var w := RepeatByte(fill[56..], cell / 8);
    forall t | 0 <= t < cell / unit ensures FieldIs(w, t, unit, pattern) {
      UnitFits(cell, unit, t);
      var s := t % n;
      assert FieldIs(fill, s, unit, pattern);
      UnitInByte(s, n, unit);
      forall i | 0 <= i < unit ensures Field(w, t * unit, unit)[i] == Field(fill, s * unit, unit)[i] {
        ByteField(cell, unit, t, n, i);
        FieldBit(w, t * unit, unit, i);
        FieldBit(fill, s * unit, unit, i);
        assert w[cell - t * unit - unit + i] == fill[56..][8 - s * unit - unit + i];
      }
      assert Field(w, t * unit, unit) == Field(fill, s * unit, unit);
    }
  }

  lemma FieldBit(w: Word, shift: nat, unit: nat, i: nat)
    requires shift + unit <= |w| && i < unit
    ensures Field(w, shift, unit)[i] == w[|w| - shift - unit + i]
  {
  }

  /** A bit of field t of repeated bytes is the same bit of field t modulo the units of a byte. */
  lemma ByteField(cell: nat, unit: nat, t: nat, n: nat, i: nat)
    requires Packs(cell, unit) && unit <= 8 && n * unit == 8 && t < cell / unit && i < unit
    ensures t * unit + unit <= cell && (t % n) * unit + unit <= 8
    ensures (cell - t * unit - unit + i) % 8 == 8 - (t % n) * unit - unit + i
  {
    UnitFits(cell, unit, t);
    CellBytes(cell, unit);
    var q, s := t / n, t % n;
    SplitSlot(t, n, unit);
    UnitInByte(s, n, unit);
    DivModUnique(cell - t * unit - unit + i, 8, cell / 8 - q - 1, 8 - s * unit - unit + i);
  }

  lemma SplitSlot(t: nat, n: nat, unit: nat)
    requires n * unit == 8
    ensures n > 0 && t * unit == 8 * (t / n) + (t % n) * unit
  {
    assert t == (t / n) * n + t % n;
    TimesUnit(t / n, n, t % n, unit);
  }

  lemma UnitInByte(s: nat, n: nat, unit: nat)
    requires s < n && n * unit == 8
    ensures s * unit + unit <= 8
  {
    MulMono(s + 1, n, unit);
    assert (s + 1) * unit == s * unit + unit;
  }

  lemma TimesUnit(q: nat, n: nat, s: nat, unit: nat)
    requires n * unit == 8
    ensures (q * n + s) * unit == 8 * q + s * unit
  {
    assert (q * n + s) * unit == q * (n * unit) + s * unit;
  }

  lemma CellFill(fill: Word, cell: nat, unit: nat, pattern: Word, n: nat)
    requires |fill| == 64 && Packs(cell, unit) && n * unit == cell && |pattern| == unit
    requires Repeats(fill, n, unit, pattern)
    ensures cell <= 64 && Repeats(fill[64 - cell..], UnitsPerCell(cell, unit), unit, pattern)
  {
    DivModUnique(cell, unit, n, 0);
    var w := fill[64 - cell..];
    forall t | 0 <= t < n ensures FieldIs(w, t, unit, pattern) {
      assert FieldIs(fill, t, unit, pattern);
      UnitFits(cell, unit, t);
      assert Field(w, t * unit, unit) == Field(fill, t * unit, unit);
    }
  }

  lemma {:induction false} ValueLeadingZeros(n: nat, w: Word)
    ensures Value(Zeros(n) + w) == Value(w)
    decreases |w| + n
  {
    if w != [] {
      assert (Zeros(n) + w)[..n + |w| - 1] == Zeros(n) + w[..|w| - 1];
      ValueLeadingZeros(n, w[..|w| - 1]);
    } else if n > 0 {
      assert Zeros(n) + w == Zeros(n) && Zeros(n)[..n - 1] == Zeros(n - 1) + w;
      ValueLeadingZeros(n - 1, w);
    } else {
      assert Zeros(0) + w == w;
    }
  }

  // ---- whole runs ----

  datatype Op = SetOp(unit: nat, val: nat) | GetOp(unit: nat) | ResetOp

  datatype Answer = Done | Got(val: nat) | Invalid

  /** An operation on a plain array of unit values; the cells the bitmap packs them into do not appear. */
  function Serve(units: seq<nat>, unit: nat, init: nat, op: Op): (r: (seq<nat>, Answer))
    ensures |r.0| == |units|
  {
    match op
    case SetOp(k, val) => if k < |units| && val < Power2(unit) then (units[k := val], Done) else (units, Invalid)
    case GetOp(k) => if k < |units| then (units, Got(units[k])) else (units, Invalid)
    case ResetOp => (seq(|units|, _ => init), Done)
  }

  function ServeAll(units: seq<nat>, unit: nat, init: nat, ops: seq<Op>): (r: (seq<nat>, seq<Answer>))
    ensures |r.0| == |units| && |r.1| == |ops|
    decreases |ops|
  {
    if ops == [] then (units, [])
    else
      var before := ServeAll(units, unit, init, ops[..|ops| - 1]);
      var last := Serve(before.0, unit, init, ops[|ops| - 1]);
      (last.0, before.1 + [last.1])
  }

  method Handle(bm: PackedBitmap, op: Op) returns (answer: Answer)
    requires bm.Valid()
    modifies bm.data
    ensures bm.Valid() && (bm.Units(), answer) == Serve(old(bm.Units()), bm.unitSize, bm.unitInit, op)
  {
    hide Packs, Room, UnitsPerCell, Power2, Value, PackedBitmap.Units;
    match op {
      case SetOp(k, val) =>
        var st := bm.Set(k, val);
        answer := if st == Ok then Done else Invalid;
      case GetOp(k) =>
        var st, val := bm.Get(k);
        answer := if st == Ok then Got(val) else Invalid;
      case ResetOp =>
        bm.Reset();
        answer := Done;
    }
  }

  /** Every run of operations answers as the plain array does, so bitmaps with the same units answer alike
      whatever their cell types. */
  method HandleAll(bm: PackedBitmap, ops: seq<Op>) returns (answers: seq<Answer>)
    requires bm.Valid()
    modifies bm.data
    ensures bm.Valid() && (bm.Units(), answers) == ServeAll(old(bm.Units()), bm.unitSize, bm.unitInit, ops)
  {
    hide Serve, PackedBitmap.Units, PackedBitmap.Valid;
    answers := [];
    ghost var units := bm.Units();
    for i := 0 to |ops|
      invariant bm.Valid() && (bm.Units(), answers) == ServeAll(units, bm.unitSize, bm.unitInit, ops[..i])
    {
      var answer := Handle(bm, ops[i]);
      assert ops[..i + 1][..i] == ops[..i];
      answers := answers + [answer];
    }
    assert ops[..|ops|] == ops;
  }
}
