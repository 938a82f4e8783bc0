/** The pin description of a latch cell in the cell-mapped network
    (`CmnLatchCell`): six 5-bit slots packed into one 32-bit word, each
    holding a 2-bit sense below a 3-bit pin position. */
module LatchCell {

  /** The slot index of each pin. */
  const Output1: nat := 0
  const Output2: nat := 1
  const Input: nat := 2
  const Enable: nat := 3
  const Clear: nat := 4
  const Preset: nat := 5

  /** The first bit of slot `idx`: `5 * idx`. */
  function Shift(idx: nat): (r: bv32)
    requires idx < 6
    ensures r as int == 5 * idx
  {
    [0, 5, 10, 15, 20, 25][idx]
  }

  /** `encode(val, idx)`: the value moved to slot `idx` (bits beyond the
      word are lost). */
  function EncodeField(val: bv32, idx: nat): bv32
    requires idx < 6
  {
    val << Shift(idx)
  }

  /** `get_sense(bits, idx)`: bits 0-1 of slot `idx`. */
  function GetSense(bits: bv32, idx: nat): bv32
    requires idx < 6
  {
    (bits >> Shift(idx)) & 3
  }

  /** `get_pos(bits, idx)`: bits 2-4 of slot `idx`. */
  function GetPos(bits: bv32, idx: nat): bv32
    requires idx < 6
  {
    (bits >> (Shift(idx) + 2)) & 7
  }

  datatype Cell = Cell(cell: nat, bits: bv32)

  /** The constructor: `pos` holds, in order, the data pin, the enable,
      clear and preset pins with their senses, and the two output pins. */
  function NewCell(cell: nat, pos: seq<bv32>): Cell
    requires |pos| == 6
  {
    Cell(cell, EncodeField(pos[0], Input) | EncodeField(pos[1], Enable) | EncodeField(pos[2], Clear)
               | EncodeField(pos[3], Preset) | EncodeField(pos[4], Output1) | EncodeField(pos[5], Output2))
  }

  function EnableSense(c: Cell): bv32 { GetSense(c.bits, Enable) }
  function ClearSense(c: Cell): bv32 { GetSense(c.bits, Clear) }
  function PresetSense(c: Cell): bv32 { GetSense(c.bits, Preset) }
  function HasEnable(c: Cell): bool { EnableSense(c) != 0 }
  function HasClear(c: Cell): bool { ClearSense(c) != 0 }
  function HasPreset(c: Cell): bool { PresetSense(c) != 0 }
  function DataPos(c: Cell): bv32 { GetPos(c.bits, Input) }
  function EnablePos(c: Cell): bv32 { GetPos(c.bits, Enable) }
  function ClearPos(c: Cell): bv32 { GetPos(c.bits, Clear) }
  function PresetPos(c: Cell): bv32 { GetPos(c.bits, Preset) }
  function QPos(c: Cell): bv32 { GetPos(c.bits, Output1) }
  function IqPos(c: Cell): bv32 { GetPos(c.bits, Output2) }

  /** The six slots are disjoint: with every entry below 32, each accessor
      reads exactly its own entry, whatever the others hold. */
  lemma NewCellFields(cell: nat, pos: seq<bv32>)
    requires |pos| == 6 && pos[0] < 32 && pos[1] < 32 && pos[2] < 32
    requires pos[3] < 32 && pos[4] < 32 && pos[5] < 32
    ensures var c := NewCell(cell, pos);
            && c.cell == cell
            && EnableSense(c) == pos[1] & 3 && EnablePos(c) == (pos[1] >> 2) & 7
            && ClearSense(c) == pos[2] & 3 && ClearPos(c) == (pos[2] >> 2) & 7
            && PresetSense(c) == pos[3] & 3 && PresetPos(c) == (pos[3] >> 2) & 7
            && DataPos(c) == (pos[0] >> 2) & 7
            && QPos(c) == (pos[4] >> 2) & 7
            && IqPos(c) == (pos[5] >> 2) & 7
  {
  }

  /** A pin is present exactly when its sense is not 0. */
  lemma HasIffSense(cell: nat, pos: seq<bv32>)
    requires |pos| == 6 && pos[0] < 32 && pos[1] < 32 && pos[2] < 32
    requires pos[3] < 32 && pos[4] < 32 && pos[5] < 32
    ensures var c := NewCell(cell, pos);
            && (HasEnable(c) <==> pos[1] & 3 != 0)
            && (HasClear(c) <==> pos[2] & 3 != 0)
            && (HasPreset(c) <==> pos[3] & 3 != 0)
  {
    NewCellFields(cell, pos);
  }

  /** As written, the data and output pins are stored as given but read
      from bits 2-4 of their slot, so a plain pin number comes back
      shifted right by two: data pin 5 reads as 1. */
  lemma PlainPinReadsShifted()
    ensures DataPos(NewCell(0, [5, 0, 0, 0, 0, 0])) == 1
    ensures QPos(NewCell(0, [0, 0, 0, 0, 6, 0])) == 1
  {
    NewCellFields(0, [5, 0, 0, 0, 0, 0]);
    NewCellFields(0, [0, 0, 0, 0, 6, 0]);
  }

  /** The constructor as evidently intended: the plain pin numbers of the
      data input and the two outputs are placed above the sense bits, like
      the positions of the other pins. */
  function NewCellPinsPlaced(cell: nat, pos: seq<bv32>): Cell
    requires |pos| == 6
  {
    NewCell(cell, [pos[0] << 2, pos[1], pos[2], pos[3], pos[4] << 2, pos[5] << 2])
  }

  /** With the pins placed, every pin number below 8 reads back as
      given. */
  lemma PinsPlacedRoundTrip(cell: nat, pos: seq<bv32>)
    requires |pos| == 6 && pos[0] < 8 && pos[4] < 8 && pos[5] < 8
    requires pos[1] < 32 && pos[2] < 32 && pos[3] < 32
    ensures var c := NewCellPinsPlaced(cell, pos);
            DataPos(c) == pos[0] && QPos(c) == pos[4] && IqPos(c) == pos[5]
  {
    PlacedFields(cell, pos);
  }

  /** Placing the pins leaves the enable, clear and preset slots as the
      constructor stores them. */
  lemma PinsPlacedKeepsControls(cell: nat, pos: seq<bv32>)
    requires |pos| == 6 && pos[0] < 8 && pos[4] < 8 && pos[5] < 8
    requires pos[1] < 32 && pos[2] < 32 && pos[3] < 32
    ensures var c := NewCellPinsPlaced(cell, pos);
            && EnableSense(c) == pos[1] & 3 && EnablePos(c) == (pos[1] >> 2) & 7
            && ClearSense(c) == pos[2] & 3 && ClearPos(c) == (pos[2] >> 2) & 7
            && PresetSense(c) == pos[3] & 3 && PresetPos(c) == (pos[3] >> 2) & 7
  {
    PlacedFields(cell, pos);
  }

  /** The placed constructor is the plain one on the shifted entries, all
      of which fit their slots. */
  lemma PlacedFields(cell: nat, pos: seq<bv32>)
    requires |pos| == 6 && pos[0] < 8 && pos[4] < 8 && pos[5] < 8
    requires pos[1] < 32 && pos[2] < 32 && pos[3] < 32
    ensures var placed := [pos[0] << 2, pos[1], pos[2], pos[3], pos[4] << 2, pos[5] << 2];
            && NewCellPinsPlaced(cell, pos) == NewCell(cell, placed)
            && (placed[0] >> 2) & 7 == pos[0] && (placed[4] >> 2) & 7 == pos[4]
            && (placed[5] >> 2) & 7 == pos[5]
  {
    var placed := [pos[0] << 2, pos[1], pos[2], pos[3], pos[4] << 2, pos[5] << 2];
    PlacedPin(pos[0]);
    PlacedPin(pos[4]);
    PlacedPin(pos[5]);
    NewCellFields(cell, placed);
  }

  /** A pin number below 8 placed above the sense bits fits its slot and
      reads back from bits 2-4. */
  lemma PlacedPin(x: bv32)
    requires x < 8
    ensures x << 2 < 32 && ((x << 2) >> 2) & 7 == x
  {
  }
}
