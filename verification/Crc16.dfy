/**
 * The 16-bit cyclic redundancy check of the default packet format: the byte-wise table form, the
 * bit-serial register it stands for, and the error bursts it detects.
 *
 * Proofs hide the bit-vector definitions they do not need: each fact about one clock is proved once
 * on the raw operators, and everything above it treats the register as an abstract value.
 */
module Crc16 {
  import opened Bytes

  const INITIAL_VALUE: bv16 := 0xFFFF

  // ---------------------------------------------------------------- bit-serial register

  /** Addition of register values modulo 2. */
  function Plus(a: bv16, b: bv16): bv16 {
    a ^ b
  }

  /** One clock of the register: the bit shifted out feeds the polynomial 0x1021 back in. */
  function Shift(register: bv16): bv16 {
    (register << 1) ^ ((register >> 15) * 0x1021)
  }

  /** One clock with an input bit, which enters at the top of the register. */
  function ShiftBit(register: bv16, bit: bool): bv16 {
    Shift(if bit then Plus(register, 0x8000) else register)
  }

  function ShiftBits(register: bv16, bits: seq<bool>): bv16
    decreases |bits|
  {
    if bits == [] then register else ShiftBits(ShiftBit(register, bits[0]), bits[1..])
  }

  predicate TopBit(b: byte) {
    b & 0x80 != 0
  }

  function DropTopBit(b: byte): byte {
    b << 1
  }

  /** The top `count` bits of a byte, most significant first. */
  function TopBits(b: byte, count: nat): (bits: seq<bool>)
    ensures |bits| == count
    decreases count
  {
    if count == 0 then [] else [TopBit(b)] + TopBits(DropTopBit(b), count - 1)
  }

  /** A message as a bit string, the most significant bit of each byte first. */
  function Bits(message: seq<byte>): (bits: seq<bool>)
    ensures |bits| == 8 * |message|
  {
    if message == [] then [] else TopBits(message[0], 8) + Bits(message[1..])
  }

  /** The check value of a message: the register after every bit of it, from `register`. */
  function Crc(register: bv16, message: seq<byte>): bv16 {
    ShiftBits(register, Bits(message))
  }

  /** The register after the eight bits of one byte. */
  function CrcByte(register: bv16, b: byte): bv16 {
    ShiftBits(register, TopBits(b, 8))
  }

  // ---------------------------------------------------------------- table form

  const TABLE: seq<seq<bv16>> := [
    [0x0000, 0x1021, 0x2042, 0x3063, 0x4084, 0x50A5, 0x60C6, 0x70E7],
    [0x8108, 0x9129, 0xA14A, 0xB16B, 0xC18C, 0xD1AD, 0xE1CE, 0xF1EF],
    [0x1231, 0x0210, 0x3273, 0x2252, 0x52B5, 0x4294, 0x72F7, 0x62D6],
    [0x9339, 0x8318, 0xB37B, 0xA35A, 0xD3BD, 0xC39C, 0xF3FF, 0xE3DE],
    [0x2462, 0x3443, 0x0420, 0x1401, 0x64E6, 0x74C7, 0x44A4, 0x5485],
    [0xA56A, 0xB54B, 0x8528, 0x9509, 0xE5EE, 0xF5CF, 0xC5AC, 0xD58D],
    [0x3653, 0x2672, 0x1611, 0x0630, 0x76D7, 0x66F6, 0x5695, 0x46B4],
    [0xB75B, 0xA77A, 0x9719, 0x8738, 0xF7DF, 0xE7FE, 0xD79D, 0xC7BC],
    [0x48C4, 0x58E5, 0x6886, 0x78A7, 0x0840, 0x1861, 0x2802, 0x3823],
    [0xC9CC, 0xD9ED, 0xE98E, 0xF9AF, 0x8948, 0x9969, 0xA90A, 0xB92B],
    [0x5AF5, 0x4AD4, 0x7AB7, 0x6A96, 0x1A71, 0x0A50, 0x3A33, 0x2A12],
    [0xDBFD, 0xCBDC, 0xFBBF, 0xEB9E, 0x9B79, 0x8B58, 0xBB3B, 0xAB1A],
    [0x6CA6, 0x7C87, 0x4CE4, 0x5CC5, 0x2C22, 0x3C03, 0x0C60, 0x1C41],
    [0xEDAE, 0xFD8F, 0xCDEC, 0xDDCD, 0xAD2A, 0xBD0B, 0x8D68, 0x9D49],
    [0x7E97, 0x6EB6, 0x5ED5, 0x4EF4, 0x3E13, 0x2E32, 0x1E51, 0x0E70],
    [0xFF9F, 0xEFBE, 0xDFDD, 0xCFFC, 0xBF1B, 0xAF3A, 0x9F59, 0x8F78],
    [0x9188, 0x81A9, 0xB1CA, 0xA1EB, 0xD10C, 0xC12D, 0xF14E, 0xE16F],
    [0x1080, 0x00A1, 0x30C2, 0x20E3, 0x5004, 0x4025, 0x7046, 0x6067],
    [0x83B9, 0x9398, 0xA3FB, 0xB3DA, 0xC33D, 0xD31C, 0xE37F, 0xF35E],
    [0x02B1, 0x1290, 0x22F3, 0x32D2, 0x4235, 0x5214, 0x6277, 0x7256],
    [0xB5EA, 0xA5CB, 0x95A8, 0x8589, 0xF56E, 0xE54F, 0xD52C, 0xC50D],
    [0x34E2, 0x24C3, 0x14A0, 0x0481, 0x7466, 0x6447, 0x5424, 0x4405],
    [0xA7DB, 0xB7FA, 0x8799, 0x97B8, 0xE75F, 0xF77E, 0xC71D, 0xD73C],
    [0x26D3, 0x36F2, 0x0691, 0x16B0, 0x6657, 0x7676, 0x4615, 0x5634],
    [0xD94C, 0xC96D, 0xF90E, 0xE92F, 0x99C8, 0x89E9, 0xB98A, 0xA9AB],
    [0x5844, 0x4865, 0x7806, 0x6827, 0x18C0, 0x08E1, 0x3882, 0x28A3],
    [0xCB7D, 0xDB5C, 0xEB3F, 0xFB1E, 0x8BF9, 0x9BD8, 0xABBB, 0xBB9A],
    [0x4A75, 0x5A54, 0x6A37, 0x7A16, 0x0AF1, 0x1AD0, 0x2AB3, 0x3A92],
    [0xFD2E, 0xED0F, 0xDD6C, 0xCD4D, 0xBDAA, 0xAD8B, 0x9DE8, 0x8DC9],
    [0x7C26, 0x6C07, 0x5C64, 0x4C45, 0x3CA2, 0x2C83, 0x1CE0, 0x0CC1],
    [0xEF1F, 0xFF3E, 0xCF5D, 0xDF7C, 0xAF9B, 0xBFBA, 0x8FD9, 0x9FF8],
    [0x6E17, 0x7E36, 0x4E55, 0x5E74, 0x2E93, 0x3EB2, 0x0ED1, 0x1EF0]
  ]

  lemma TableShape(row: int)
    ensures |TABLE| == 32
    ensures 0 <= row < 32 ==> |TABLE[row]| == 8
  {
  }

  function Table(index: byte): bv16 {
    var row, column := (index >> 3) as int, (index & 7) as int;
    TableShape(row);
    TABLE[row][column]
  }

  function TableIndex(data: byte, crc: bv32): byte {
    (((crc >> 8) ^ data as bv32) & 0xFF) as byte
  }

  function Mix(crc: bv32, entry: bv16): bv32 {
    ((crc << 8) & 0xFF00) ^ entry as bv32
  }

  /** One byte of the table form, on the unsigned word the loop keeps. */
  function Step(data: byte, crc: bv32): bv32 {
    Mix(crc, Table(TableIndex(data, crc)))
  }

  /** Eight clocks without input. */
  function Clock8(register: bv16): bv16 {
    Shift(Shift(Shift(Shift(Shift(Shift(Shift(Shift(register))))))))
  }

  /** A byte placed in the top half of the register. */
  function Lift(b: byte): bv16 {
    b as bv16 << 8
  }

  predicate RowIsClocked(entries: seq<bv16>, first: bv16) {
    && |entries| == 8
    && entries[0] == Clock8(first << 8) && entries[1] == Clock8((first | 1) << 8)
    && entries[2] == Clock8((first | 2) << 8) && entries[3] == Clock8((first | 3) << 8)
    && entries[4] == Clock8((first | 4) << 8) && entries[5] == Clock8((first | 5) << 8)
    && entries[6] == Clock8((first | 6) << 8) && entries[7] == Clock8((first | 7) << 8)
  }

  lemma LowerRowsAreClocked(row: byte)
    requires row < 16
    ensures |TABLE| == 32 && RowIsClocked(TABLE[row as int], row as bv16 << 3)
  {
  }

  lemma UpperRowsAreClocked(row: byte)
    requires 16 <= row < 32
    ensures |TABLE| == 32 && RowIsClocked(TABLE[row as int], row as bv16 << 3)
  {
  }

  lemma ColumnIsClocked(entries: seq<bv16>, row: bv16, column: byte)
    requires column < 8 && RowIsClocked(entries, row << 3)
    ensures entries[column as int] == Clock8(((row << 3) | column as bv16) << 8)
  {
    assert column == 0 || column == 1 || column == 2 || column == 3
        || column == 4 || column == 5 || column == 6 || column == 7;
  }

  lemma RowAndColumn(index: byte)
    ensures index >> 3 < 32 && index & 7 < 8
    ensures ((index >> 3) as bv16 << 3) | (index & 7) as bv16 == index as bv16
  {
  }

  /** Every table entry is what eight clocks make of its index. */
  lemma TableIsClocked(index: byte)
    ensures Table(index) == Clock8(Lift(index))
  {
    hide Clock8, RowIsClocked, TABLE;
    RowAndColumn(index);
    var row, column := index >> 3, index & 7;
    if row < 16 { LowerRowsAreClocked(row); } else { UpperRowsAreClocked(row); }
    ColumnIsClocked(TABLE[row as int], row as bv16, column);
  }

  // ---------------------------------------------------------------- the register is linear

  lemma RawShiftIsLinear(a: bv16, b: bv16)
    ensures Shift(a ^ b) == Shift(a) ^ Shift(b)
  {
  }

  lemma ShiftIsLinear(a: bv16, b: bv16)
    ensures Shift(Plus(a, b)) == Plus(Shift(a), Shift(b))
  {
    hide Shift;
    RawShiftIsLinear(a, b);
  }

  /** The register clocked `count` times without input. */
  function Clock(register: bv16, count: nat): bv16
    decreases count
  {
    if count == 0 then register else Clock(Shift(register), count - 1)
  }

  lemma {:induction false} ClockIsLinear(a: bv16, b: bv16, count: nat)
    ensures Clock(Plus(a, b), count) == Plus(Clock(a, count), Clock(b, count))
    decreases count
  {
    hide Shift, Plus;
    if count != 0 {
      ShiftIsLinear(a, b);
      ClockIsLinear(Shift(a), Shift(b), count - 1);
    }
  }

  lemma Clock8IsClock(register: bv16)
    ensures Clock8(register) == Clock(register, 8)
  {
    hide Shift, Plus;
  }

  lemma Clock8IsLinear(a: bv16, b: bv16)
    ensures Clock8(Plus(a, b)) == Plus(Clock8(a), Clock8(b))
  {
    hide Shift, Plus, Clock8;
    Clock8IsClock(a);
    Clock8IsClock(b);
    Clock8IsClock(Plus(a, b));
    ClockIsLinear(a, b, 8);
  }

  // ---------------------------------------------------------------- a byte enters eight bits at a time

  lemma TopBitSetFirst(register: bv16, b: byte, sum: bv16, next: bv16, rest: bv16, total: bv16)
    requires TopBit(b)
    requires sum == Plus(register, Lift(b)) && next == Plus(register, 0x8000)
    requires rest == Lift(DropTopBit(b)) && total == Plus(Shift(next), rest)
    ensures Shift(sum) == total
  {
  }

  lemma TopBitClearFirst(register: bv16, b: byte, sum: bv16, rest: bv16, total: bv16)
    requires !TopBit(b)
    requires sum == Plus(register, Lift(b))
    requires rest == Lift(DropTopBit(b)) && total == Plus(Shift(register), rest)
    ensures Shift(sum) == total
  {
  }

  lemma TopBitFirst(register: bv16, b: byte)
    ensures Shift(Plus(register, Lift(b))) == Plus(ShiftBit(register, TopBit(b)), Lift(DropTopBit(b)))
  {
    hide Shift, Plus, Lift, TopBit, DropTopBit;
    var sum, rest, next := Plus(register, Lift(b)), Lift(DropTopBit(b)), Plus(register, 0x8000);
    if TopBit(b) {
      TopBitSetFirst(register, b, sum, next, rest, Plus(Shift(next), rest));
    } else {
      TopBitClearFirst(register, b, sum, rest, Plus(Shift(register), rest));
    }
  }

  function DropTopBits(b: byte, count: nat): byte
    decreases count
  {
    if count == 0 then b else DropTopBits(DropTopBit(b), count - 1)
  }

  lemma {:induction false} TopBitsFirst(register: bv16, b: byte, count: nat)
    ensures Clock(Plus(register, Lift(b)), count)
         == Plus(ShiftBits(register, TopBits(b, count)), Lift(DropTopBits(b, count)))
    decreases count
  {
    hide Shift, ShiftBit, Plus, Lift, TopBit, DropTopBit;
    if count != 0 {
      var next := ShiftBit(register, TopBit(b));
      TopBitFirst(register, b);
      TopBitsFirst(next, DropTopBit(b), count - 1);
      assert TopBits(b, count)[1..] == TopBits(DropTopBit(b), count - 1);
    }
  }

  lemma NothingAfterEightBits(b: byte, register: bv16)
    ensures DropTopBits(b, 8) == 0
    ensures Plus(register, Lift(0)) == register
  {
  }

  /** The eight bits of a byte, one after the other, act like the whole byte followed by eight clocks. */
  lemma ByteAtOnce(register: bv16, b: byte)
    ensures ShiftBits(register, TopBits(b, 8)) == Clock8(Plus(register, Lift(b)))
  {
    hide Shift, ShiftBit, Plus, Lift, TopBit, DropTopBit, Clock8, TopBits, DropTopBits;
    TopBitsFirst(register, b, 8);
    NothingAfterEightBits(b, ShiftBits(register, TopBits(b, 8)));
    Clock8IsClock(Plus(register, Lift(b)));
  }

  // ---------------------------------------------------------------- the table form is the register

  /** The register as the loop's unsigned word. */
  function Widen(register: bv16): bv32 {
    register as bv32
  }

  /** The loop's word cut back to 16 bits for the caller. */
  function Narrow(crc: bv32): bv16 {
    (crc & 0xFFFF) as bv16
  }

  lemma NarrowWiden(register: bv16)
    ensures Narrow(Widen(register)) == register
  {
  }

  /** The table index a byte selects. */
  function Selected(register: bv16, data: byte): byte {
    High(register) ^ data
  }

  function LowByte(register: bv16): bv16 {
    register & 0xFF
  }

  function LowByteUp(register: bv16): bv16 {
    register << 8
  }

  lemma TableIndexOfRegister(data: byte, register: bv16, wide: bv32, index: byte)
    requires wide == Widen(register) && index == Selected(register, data)
    ensures TableIndex(data, wide) == index
  {
  }

  lemma MixOfRegister(register: bv16, wide: bv32, entry: bv16, sum: bv16)
    requires wide == Widen(register) && sum == Plus(LowByteUp(register), entry)
    ensures Mix(wide, entry) == Widen(sum)
  {
  }

  lemma RegisterSplits(data: byte, register: bv16, lifted: bv16, low: bv16, sum: bv16)
    requires lifted == Lift(Selected(register, data)) && low == LowByte(register)
    requires sum == Plus(register, Lift(data))
    ensures sum == Plus(lifted, low)
  {
  }

  lemma LowByteOnlyMoves(register: bv16, low: bv16, up: bv16)
    requires low == LowByte(register) && up == LowByteUp(register)
    ensures Clock8(low) == up
  {
  }

  lemma PlusCommutes(a: bv16, b: bv16)
    ensures Plus(a, b) == Plus(b, a)
  {
  }

  lemma ByteByTable(data: byte, register: bv16)
    ensures CrcByte(register, data) == Plus(LowByteUp(register), Table(Selected(register, data)))
  {
    hide Shift, ShiftBit, ShiftBits, TopBits, Plus, Lift, Clock8, Table, Selected, LowByte, LowByteUp;
    var index := Selected(register, data);
    TableIsClocked(index);
    ByteAtOnce(register, data);
    RegisterSplits(data, register, Lift(index), LowByte(register), Plus(register, Lift(data)));
    Clock8IsLinear(Lift(index), LowByte(register));
    LowByteOnlyMoves(register, LowByte(register), LowByteUp(register));
    PlusCommutes(LowByteUp(register), Table(index));
  }

  /** One table step is eight clocks of the register with the byte's bits, for every register and byte. */
  lemma StepIsEightBits(data: byte, register: bv16)
    ensures Step(data, Widen(register)) == Widen(CrcByte(register, data))
  {
    hide Plus, Table, CrcByte, Selected, Widen, LowByteUp, TableIndex, Mix;
    var wide, index := Widen(register), Selected(register, data);
    ByteByTable(data, register);
    TableIndexOfRegister(data, register, wide, index);
    MixOfRegister(register, wide, Table(index), CrcByte(register, data));
  }

  // ---------------------------------------------------------------- messages

  lemma {:induction false} ShiftBitsAppend(register: bv16, a: seq<bool>, b: seq<bool>)
    ensures ShiftBits(register, a + b) == ShiftBits(ShiftBits(register, a), b)
    decreases |a|
  {
    hide ShiftBit;
    if a == [] {
      assert a + b == b;
    } else {
      assert (a + b)[1..] == a[1..] + b;
      ShiftBitsAppend(ShiftBit(register, a[0]), a[1..], b);
    }
  }

  lemma {:induction false} BitsAppend(a: seq<byte>, b: seq<byte>)
    ensures Bits(a + b) == Bits(a) + Bits(b)
  {
    hide TopBits;
    if a == [] {
      assert a + b == b;
    } else {
      assert (a + b)[1..] == a[1..] + b;
      BitsAppend(a[1..], b);
      assert TopBits(a[0], 8) + (Bits(a[1..]) + Bits(b)) == Bits(a) + Bits(b);
    }
  }

  lemma CrcAppend(register: bv16, a: seq<byte>, b: seq<byte>)
    ensures Crc(register, a + b) == Crc(Crc(register, a), b)
  {
    hide ShiftBits, Bits;
    BitsAppend(a, b);
    ShiftBitsAppend(register, Bits(a), Bits(b));
  }

  lemma CrcFirst(register: bv16, message: seq<byte>)
    requires message != []
    ensures Crc(register, message) == Crc(CrcByte(register, message[0]), message[1..])
  {
    hide ShiftBits, TopBits;
    ShiftBitsAppend(register, TopBits(message[0], 8), Bits(message[1..]));
  }

  lemma CrcLast(register: bv16, message: seq<byte>, b: byte)
    ensures Crc(register, message + [b]) == CrcByte(Crc(register, message), b)
  {
    hide ShiftBits, TopBits;
    CrcAppend(register, message, [b]);
    assert Bits([]) == [];
    assert Bits([b]) == TopBits(b, 8);
  }

  lemma CrcOfNothing(register: bv16)
    ensures Crc(register, []) == register
  {
  }

  lemma PlusAssociates(a: bv16, b: bv16, c: bv16)
    ensures Plus(Plus(a, b), c) == Plus(a, Plus(b, c))
  {
  }

  // ---------------------------------------------------------------- the start value

  lemma StartMeetsByte(a: byte, start: bv16, sum: bv16, lifted: bv16)
    requires start == INITIAL_VALUE
    requires sum == Plus(start, Lift(a)) && lifted == Lift(a ^ 0xFF)
    ensures sum == Plus(lifted, LowByte(0xFF))
  {
  }

  lemma RestMeetsByte(b: byte, up: bv16, lifted: bv16)
    requires up == LowByteUp(0xFF) && lifted == Lift(b ^ 0xFF)
    ensures Plus(up, Lift(b)) == lifted
  {
  }

  lemma FromZero(a: byte)
    ensures Plus(0, Lift(a)) == Lift(a)
  {
  }

  /** The start value acts like the inversion of the first two bytes. */
  lemma StartInvertsTwoBytes(a: byte, b: byte)
    ensures CrcByte(CrcByte(INITIAL_VALUE, a), b) == CrcByte(CrcByte(0, a ^ 0xFF), b ^ 0xFF)
  {
    hide Plus, Lift, LowByte, LowByteUp, Clock8, ShiftBits, TopBits, INITIAL_VALUE;
    var lifted, x, up := Lift(a ^ 0xFF), Clock8(Lift(a ^ 0xFF)), LowByteUp(0xFF);
    ByteAtOnce(INITIAL_VALUE, a);
    StartMeetsByte(a, INITIAL_VALUE, Plus(INITIAL_VALUE, Lift(a)), lifted);
    Clock8IsLinear(lifted, LowByte(0xFF));
    LowByteOnlyMoves(0xFF, LowByte(0xFF), up);
    ByteAtOnce(Plus(x, up), b);
    PlusAssociates(x, up, Lift(b));
    RestMeetsByte(b, up, Lift(b ^ 0xFF));
    ByteAtOnce(0, a ^ 0xFF);
    FromZero(a ^ 0xFF);
    ByteAtOnce(x, b ^ 0xFF);
  }

  /**
   * The check value of a message is the zero-initialised register over the message with its first two bytes
   * inverted.
   */
  lemma CheckValueFromZero(message: seq<byte>)
    requires |message| >= 2
    ensures Crc(INITIAL_VALUE, message) == Crc(0, [message[0] ^ 0xFF, message[1] ^ 0xFF] + message[2..])
  {
    hide Crc, CrcByte, INITIAL_VALUE;
    var a, b, rest := message[0], message[1], message[2..];
    StartInvertsTwoBytes(a, b);
    TwoBytesFirst(INITIAL_VALUE, a, b, rest);
    TwoBytesFirst(0, a ^ 0xFF, b ^ 0xFF, rest);
    assert message == [a, b] + rest;
  }

  lemma TwoBytesFirst(register: bv16, a: byte, b: byte, rest: seq<byte>)
    ensures Crc(register, [a, b] + rest) == Crc(CrcByte(CrcByte(register, a), b), rest)
  {
    hide Crc, CrcByte;
    CrcFirst(register, [a, b] + rest);
    assert ([a, b] + rest)[1..] == [b] + rest;
    CrcFirst(CrcByte(register, a), [b] + rest);
    assert ([b] + rest)[1..] == rest;
  }

  /** A set bit at the end of a message leaves the polynomial in the register. */
  lemma LastBitLeavesPolynomial()
    ensures Crc(0, [0x01]) == 0x1021
  {
    hide Table, CrcByte;
    assert Bits([]) == [];
    CrcFirst(0, [0x01]);
    CrcOfNothing(CrcByte(0, 0x01));
    FirstTableEntry();
    ByteByTable(0x01, 0);
  }

  lemma FirstTableEntry()
    ensures Table(Selected(0, 0x01)) == 0x1021 && Plus(LowByteUp(0), 0x1021) == 0x1021
  {
  }

  /** The loop over the table computes the bit-serial check value of the block. */
  method CalculateCrc16(data: array<byte>, length: nat) returns (result: bv16)
    requires length <= data.Length
    ensures result == Crc(INITIAL_VALUE, data[..length])
    ensures length >= 2 ==> result == Crc(0, [data[0] ^ 0xFF, data[1] ^ 0xFF] + data[2..length])
    ensures length == 0 ==> result == 0xFFFF
  {
    hide ShiftBits, TopBits, Step, Bits, Crc, CrcByte, Widen, Narrow;
    var crc: bv32 := Widen(INITIAL_VALUE);
    ghost var register := INITIAL_VALUE;
    assert data[..0] == [];
    CrcOfNothing(register);
    for i := 0 to length
      invariant register == Crc(INITIAL_VALUE, data[..i])
      invariant crc == Widen(register)
    {
      StepIsEightBits(data[i], register);
      CrcLast(INITIAL_VALUE, data[..i], data[i]);
      assert data[..i + 1] == data[..i] + [data[i]];
      crc := Step(data[i], crc);
      register := CrcByte(register, data[i]);
    }
    NarrowWiden(register);
    result := Narrow(crc);
    if length >= 2 {
      CheckValueFromZero(data[..length]);
      assert data[..length][2..] == data[2..length];
    }
  }

  // ---------------------------------------------------------------- linearity over messages

  lemma LiftIsLinear(a: byte, b: byte)
    ensures Lift(Flip(a, b)) == Plus(Lift(a), Lift(b))
  {
  }

  lemma PlusExchange(a: bv16, b: bv16, c: bv16, d: bv16)
    ensures Plus(Plus(a, b), Plus(c, d)) == Plus(Plus(a, c), Plus(b, d))
  {
    hide Plus;
    PlusAssociates(a, b, Plus(c, d));
    PlusAssociates(b, c, d);
    PlusCommutes(b, c);
    PlusAssociates(c, b, d);
    PlusAssociates(a, c, Plus(b, d));
  }

  lemma CrcByteIsLinear(r: bv16, s: bv16, a: byte, b: byte)
    ensures CrcByte(Plus(r, s), Flip(a, b)) == Plus(CrcByte(r, a), CrcByte(s, b))
  {
    hide Plus, Lift, Clock8, ShiftBits, TopBits, Flip;
    ByteAtOnce(Plus(r, s), Flip(a, b));
    ByteAtOnce(r, a);
    ByteAtOnce(s, b);
    LiftIsLinear(a, b);
    PlusExchange(r, s, Lift(a), Lift(b));
    Clock8IsLinear(Plus(r, Lift(a)), Plus(s, Lift(b)));
  }

  /** Adding two messages of one length adds their check values: the check value is affine in the message. */
  lemma {:induction false} CrcIsLinear(r: bv16, s: bv16, a: seq<byte>, b: seq<byte>)
    requires |a| == |b|
    ensures Crc(Plus(r, s), Xor(a, b)) == Plus(Crc(r, a), Crc(s, b))
    decreases |a|
  {
    hide Plus, CrcByte, Crc, Flip;
    if a == [] {
      CrcOfNothing(r);
      CrcOfNothing(s);
      CrcOfNothing(Plus(r, s));
    } else {
      CrcFirst(r, a);
      CrcFirst(s, b);
      CrcFirst(Plus(r, s), Xor(a, b));
      CrcByteIsLinear(r, s, a[0], b[0]);
      CrcIsLinear(CrcByte(r, a[0]), CrcByte(s, b[0]), a[1..], b[1..]);
      assert Xor(a, b)[1..] == Xor(a[1..], b[1..]);
    }
  }

  // ---------------------------------------------------------------- error bursts

  /** At most sixteen consecutive bits, from `first` on, contain every set bit. */
  ghost predicate IsBurst(bits: seq<bool>, first: int) {
    forall i :: 0 <= i < |bits| && bits[i] ==> first <= i < first + 16
  }

  lemma BurstWithin(bits: seq<bool>, first: int)
    requires forall i :: 0 <= i < |bits| && bits[i] ==> first <= i < first + 16
    ensures IsBurst(bits, first)
  {
  }

  /** Masks of the low 16, 15, ..., 1 bits. */
  const LOW_ONES: seq<bv16> := [
    0xFFFF, 0x7FFF, 0x3FFF, 0x1FFF, 0x0FFF, 0x07FF, 0x03FF, 0x01FF,
    0x00FF, 0x007F, 0x003F, 0x001F, 0x000F, 0x0007, 0x0003, 0x0001
  ]

  predicate IsOddHalf(mask: bv16, half: bv16) {
    mask & 1 == 1 && half == mask >> 1
  }

  lemma LowOnesHalve(k: nat)
    requires 1 <= k <= 15
    ensures |LOW_ONES| == 16 && IsOddHalf(LOW_ONES[k - 1], LOW_ONES[k])
  {
  }

  predicate AreClear(register: bv16, mask: bv16) {
    register & mask == 0
  }

  lemma ShiftKeepsLowBits(register: bv16, mask: bv16, half: bv16, next: bv16)
    requires IsOddHalf(mask, half)
    requires next == Shift(register) && AreClear(next, mask)
    ensures AreClear(register, half)
  {
  }

  lemma TopBitIsNotLow(register: bv16, mask: bv16, half: bv16, flipped: bv16)
    requires IsOddHalf(mask, half) && flipped == Plus(register, 0x8000)
    requires AreClear(flipped, half)
    ensures AreClear(register, half)
  {
  }

  lemma BitBeforeClear(register: bv16, bit: bool, k: nat)
    requires 1 <= k <= 15 && |LOW_ONES| == 16
    requires AreClear(ShiftBit(register, bit), LOW_ONES[k - 1])
    ensures AreClear(register, LOW_ONES[k])
  {
    hide Shift, Plus, LOW_ONES, AreClear, IsOddHalf;
    var flipped := Plus(register, 0x8000);
    LowOnesHalve(k);
    if bit {
      ShiftKeepsLowBits(flipped, LOW_ONES[k - 1], LOW_ONES[k], Shift(flipped));
      TopBitIsNotLow(register, LOW_ONES[k - 1], LOW_ONES[k], flipped);
    } else {
      ShiftKeepsLowBits(register, LOW_ONES[k - 1], LOW_ONES[k], Shift(register));
    }
  }

  /** A register that fewer than sixteen input bits bring to zero has its low bits clear. */
  lemma {:induction false} ZeroNeedsLowBitsClear(register: bv16, bits: seq<bool>)
    requires |bits| <= 15 && |LOW_ONES| == 16
    requires ShiftBits(register, bits) == 0
    ensures AreClear(register, LOW_ONES[|bits|])
    decreases |bits|
  {
    hide ShiftBit, LOW_ONES;
    if bits != [] {
      hide AreClear;
      ZeroNeedsLowBitsClear(ShiftBit(register, bits[0]), bits[1..]);
      BitBeforeClear(register, bits[0], |bits|);
    }
  }

  lemma LowestBitIsNeverClear(k: nat, one: bv16)
    requires k <= 15 && one == ShiftBit(0, true)
    ensures |LOW_ONES| == 16 && !AreClear(one, LOW_ONES[k])
  {
    assert LOW_ONES[k] & 1 == 1;
  }

  lemma ShiftOfZero(register: bv16)
    ensures Shift(register) == 0 <==> register == 0
  {
  }

  /** Zero bits leave a zero register zero and a non-zero register non-zero. */
  lemma {:induction false} ZeroBits(register: bv16, bits: seq<bool>)
    requires true !in bits
    ensures ShiftBits(register, bits) == 0 <==> register == 0
    decreases |bits|
  {
    hide Shift, Plus;
    if bits != [] {
      assert !bits[0];
      ShiftOfZero(register);
      ZeroBits(Shift(register), bits[1..]);
    }
  }

  /** The position of the first set bit. */
  function FirstSet(bits: seq<bool>): (t: nat)
    requires true in bits
    ensures t < |bits| && bits[t] && true !in bits[..t]
    decreases |bits|
  {
    if bits[0] then 0
    else
      var t := 1 + FirstSet(bits[1..]);
      assert bits[..t] == [bits[0]] + bits[1..][..t - 1];
      t
  }

  lemma ShiftFirstBit(register: bv16, bit: bool, bits: seq<bool>)
    ensures ShiftBits(register, [bit] + bits) == ShiftBits(ShiftBit(register, bit), bits)
  {
    hide ShiftBit;
    assert ([bit] + bits)[1..] == bits;
  }

  /** A burst is nothing, its first bit, at most fifteen more bits, and nothing. */
  lemma BurstParts(bits: seq<bool>, first: int) returns (head: seq<bool>, middle: seq<bool>, tail: seq<bool>)
    requires IsBurst(bits, first) && true in bits
    ensures bits == head + ([true] + (middle + tail))
    ensures true !in head && true !in tail && |middle| <= 15
  {
    var t := FirstSet(bits);
    assert first <= t;
    var end := if first + 16 < |bits| then first + 16 else |bits|;
    forall i | end <= i < |bits| ensures !bits[i] {
    }
    head, middle, tail := bits[..t], bits[t + 1..end], bits[end..];
    SplitAround(bits, t, end);
  }

  lemma SplitAround(bits: seq<bool>, t: nat, end: nat)
    requires t < end <= |bits|
    ensures bits == bits[..t] + ([bits[t]] + (bits[t + 1..end] + bits[end..]))
  {
  }

  /** A burst of at most sixteen bits never leaves the register at zero. */
  lemma BurstIsSeen(bits: seq<bool>, first: int)
    requires IsBurst(bits, first) && true in bits
    ensures ShiftBits(0, bits) != 0
  {
    hide ShiftBits, ShiftBit, AreClear, LOW_ONES, IsBurst;
    var head, middle, tail := BurstParts(bits, first);
    ShiftBitsAppend(0, head, [true] + (middle + tail));
    ZeroBits(0, head);
    var one := ShiftBit(0, true);
    ShiftFirstBit(0, true, middle + tail);
    ShiftBitsAppend(one, middle, tail);
    ZeroBits(ShiftBits(one, middle), tail);
    LowestBitIsNeverClear(|middle|, one);
    if ShiftBits(one, middle) == 0 {
      ZeroNeedsLowBitsClear(one, middle);
    }
  }

  // ---------------------------------------------------------------- bits and bytes of an error pattern

  predicate IsZero(bytes: seq<byte>) {
    forall i :: 0 <= i < |bytes| ==> bytes[i] == 0
  }

  lemma {:induction false} TopBitsOfZero(count: nat)
    ensures true !in TopBits(0, count)
    decreases count
  {
    assert DropTopBit(0) == 0 && !TopBit(0);
    if count != 0 {
      TopBitsOfZero(count - 1);
    }
  }

  lemma {:induction false} TopBitsClear(b: byte, count: nat)
    requires true !in TopBits(b, count)
    ensures DropTopBits(b, count) == 0 ==> b == 0
    decreases count
  {
    if count != 0 {
      assert TopBits(b, count)[0] == TopBit(b);
      assert TopBits(b, count)[1..] == TopBits(DropTopBit(b), count - 1);
      TopBitsClear(DropTopBit(b), count - 1);
      NoTopBit(b, DropTopBit(b));
    }
  }

  lemma NoTopBit(b: byte, dropped: byte)
    requires !TopBit(b) && dropped == DropTopBit(b)
    ensures dropped == 0 ==> b == 0
  {
  }

  lemma ZeroByteBits(b: byte)
    ensures true in TopBits(b, 8) <==> b != 0
  {
    if b == 0 {
      TopBitsOfZero(8);
    } else if true !in TopBits(b, 8) {
      TopBitsClear(b, 8);
      NothingAfterEightBits(b, 0);
    }
  }

  /** A byte string has a set bit exactly when some byte is not zero. */
  lemma {:induction false} ZeroHasNoBits(bytes: seq<byte>)
    ensures true in Bits(bytes) <==> !IsZero(bytes)
    decreases |bytes|
  {
    hide TopBits;
    if bytes != [] {
      ZeroByteBits(bytes[0]);
      ZeroHasNoBits(bytes[1..]);
      assert IsZero(bytes) <==> bytes[0] == 0 && IsZero(bytes[1..]);
    }
  }

  /** A burst that reaches `head` ends inside the sixteen bits after it. */
  lemma BurstSparesTail(head: seq<bool>, gap: seq<bool>, tail: seq<bool>, first: int)
    requires |gap| == 16 && true in head && IsBurst(head + gap + tail, first)
    ensures IsBurst(head, first) && true !in tail
  {
    var bits := head + gap + tail;
    var t :| 0 <= t < |head| && head[t];
    assert bits[t];
    forall i | 0 <= i < |head| && head[i] ensures first <= i < first + 16 {
      assert bits[i];
    }
    forall i | 0 <= i < |tail| ensures !tail[i] {
      assert bits[|head| + 16 + i] == tail[i];
    }
  }

  lemma BitsOfThree(head: seq<byte>, gap: seq<byte>, tail: seq<byte>)
    ensures Bits(head + gap + tail) == Bits(head) + Bits(gap) + Bits(tail)
  {
    hide Bits;
    BitsAppend(head + gap, tail);
    BitsAppend(head, gap);
  }

  lemma ThreeParts(error: seq<byte>, end: nat)
    requires end + 2 <= |error|
    ensures Bits(error) == Bits(error[..end]) + Bits(error[end..end + 2]) + Bits(error[end + 2..])
  {
    hide Bits;
    SplitInThree(error, end, end + 2);
    BitsOfThree(error[..end], error[end..end + 2], error[end + 2..]);
  }

  /** An error burst that reaches the first `end` bytes changes their check value and spares what lies two bytes on. */
  lemma BurstInPrefix(error: seq<byte>, first: int, end: nat)
    requires end + 2 <= |error| && IsBurst(Bits(error), first)
    requires !IsZero(error[..end])
    ensures Crc(0, error[..end]) != 0
    ensures IsZero(error[end + 2..])
  {
    hide ShiftBits, IsZero, Bits, IsBurst;
    var head, gap, tail := error[..end], error[end..end + 2], error[end + 2..];
    ThreeParts(error, end);
    ZeroHasNoBits(head);
    ZeroHasNoBits(tail);
    BurstSparesTail(Bits(head), Bits(gap), Bits(tail), first);
    BurstIsSeen(Bits(head), first);
  }

  lemma {:induction false} CrcOfZero(bytes: seq<byte>)
    requires IsZero(bytes)
    ensures Crc(0, bytes) == 0
  {
    hide ShiftBits;
    ZeroHasNoBits(bytes);
    ZeroBits(0, Bits(bytes));
  }
}
