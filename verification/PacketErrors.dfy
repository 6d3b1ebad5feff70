/**
 * What a default packet's check value protects: header, data and the check value itself, everywhere but in
 * the sender bytes between them. An error there shows up as a register that does not end at zero.
 */
module PacketErrors {
  import opened Bytes
  import opened SpacePacket
  import opened PacketFormat
  import opened CrcDistance
  import Crc16

  /** Header, data and check value, without the two sender bytes. */
  function Checked(packet: seq<byte>): seq<byte>
    requires |packet| >= 4
  {
    packet[..|packet| - 4] + packet[|packet| - 2..]
  }

  // ---------------------------------------------------------------- the residue

  /** The low byte of a word as a register. */
  function LowHalf(low: byte): bv16 {
    Crc16.LowByte(low as bv16)
  }

  lemma WordIsSum(high: byte, low: byte)
    ensures Word(high, low) == Crc16.Plus(Crc16.Lift(high), LowHalf(low))
  {
  }

  lemma LowHalfMovesUp(low: byte, up: bv16)
    requires up == Crc16.LowByteUp(low as bv16)
    ensures up == Crc16.Lift(low)
  {
  }

  lemma ZeroSumIsEqual(a: bv16, b: bv16)
    requires Crc16.Plus(a, b) == 0
    ensures a == b
  {
  }

  lemma PlusItself(a: bv16)
    ensures Crc16.Plus(a, a) == 0
  {
  }

  lemma PlusIsZero(a: bv16, b: bv16)
    ensures Crc16.Plus(a, b) == 0 <==> a == b
  {
    hide Crc16.Plus;
    PlusItself(a);
    if Crc16.Plus(a, b) == 0 { ZeroSumIsEqual(a, b); }
  }

  lemma PlusMoves(a: bv16, b: bv16, c: bv16)
    ensures Crc16.Plus(a, b) == c <==> a == Crc16.Plus(b, c)
  {
    hide Crc16.Plus;
    Crc16.PlusAssociates(a, b, c);
    PlusIsZero(Crc16.Plus(a, b), c);
    PlusIsZero(a, Crc16.Plus(b, c));
  }

  lemma Clock8IsInjective(a: bv16, b: bv16)
    ensures Crc16.Clock8(a) == Crc16.Clock8(b) <==> a == b
  {
    hide Crc16.Clock8, Crc16.Clock;
    Crc16.Clock8IsClock(a);
    Crc16.Clock8IsClock(b);
    ClockIsInjective(a, b, 8);
  }

  lemma Clock8IsZero(register: bv16)
    ensures Crc16.Clock8(register) == 0 <==> register == 0
  {
    hide Crc16.Clock8;
    Clock8IsInjective(register, 0);
    Clock8OfZero();
  }

  lemma Clock8OfZero()
    ensures Crc16.Clock8(0) == 0
  {
  }

  /** Two bytes bring the register to zero exactly when they are its value. */
  lemma TwoBytesClear(register: bv16, high: byte, low: byte)
    ensures Crc16.CrcByte(Crc16.CrcByte(register, high), low) == 0 <==> Word(high, low) == register
  {
    hide Word, Crc16.ShiftBits, Crc16.TopBits, Crc16.Plus, Crc16.Lift, Crc16.Clock8, Crc16.LowByte, Crc16.LowByteUp;
    var first, lifted := Crc16.CrcByte(register, high), Crc16.Plus(register, Crc16.Lift(high));
    Crc16.ByteAtOnce(register, high);
    Crc16.ByteAtOnce(first, low);
    Clock8IsZero(Crc16.Plus(first, Crc16.Lift(low)));
    PlusIsZero(first, Crc16.Lift(low));
    Crc16.LowByteOnlyMoves(low as bv16, LowHalf(low), Crc16.LowByteUp(low as bv16));
    LowHalfMovesUp(low, Crc16.LowByteUp(low as bv16));
    Clock8IsInjective(lifted, LowHalf(low));
    PlusMoves(register, Crc16.Lift(high), LowHalf(low));
    WordIsSum(high, low);
  }

  /** Two trailing bytes are the check value of what is in front of them exactly when the register ends at zero. */
  lemma CheckValueIsZeroResidue(bytes: seq<byte>, high: byte, low: byte)
    ensures Word(high, low) == Crc16.Crc(0, bytes) <==> Crc16.Crc(0, bytes + [high, low]) == 0
  {
    hide Word, Crc16.Crc, Crc16.CrcByte;
    assert bytes + [high, low] == (bytes + [high]) + [low];
    Crc16.CrcLast(0, bytes, high);
    Crc16.CrcLast(0, bytes + [high], low);
    TwoBytesClear(Crc16.Crc(0, bytes), high, low);
  }

  // ---------------------------------------------------------------- errors in accepted packets

  lemma CheckedEnds(error: seq<byte>)
    requires |error| >= 4
    ensures var end := |error| - 4;
            Checked(error) == error[..end] + [error[end + 2], error[end + 3]]
  {
    var end := |error| - 4;
    assert error[end + 2..] == [error[end + 2], error[end + 3]];
  }

  /** An accepted packet stays accepted exactly when length and type are spared and the register ends at zero. */
  lemma ErrorGoesUnnoticed(packetType: PacketType, packet: seq<byte>, error: seq<byte>)
    requires Judge(packetType, packet).Accepted? && |error| == |packet|
    ensures |packet| >= OVERHEAD
    ensures Judge(packetType, Xor(packet, error)).Accepted?
       <==> Crc16.IsZero(error[4..8]) && IsOfType(packetType, Flip(packet[0], error[0]))
            && Crc16.Crc(0, Checked(error)) == 0
  {
    hide Judge, ReadLength, HasCheckValue, IsOfType, Xor, Flip, Word, Checked, Crc16.IsZero, Crc16.Crc;
    JudgeAccepts(packetType, packet);
    if Crc16.IsZero(error[4..8]) {
      var end := |packet| - 4;
      CorruptedElsewhere(packetType, packet, error);
      CheckedEnds(error);
      CheckValueIsZeroResidue(error[..end], error[end + 2], error[end + 3]);
    } else {
      CorruptedLength(packetType, packet, error);
    }
  }

  /** Any odd number of flipped bits in header, data and check value is noticed. */
  lemma OddErrorIsNoticed(packetType: PacketType, packet: seq<byte>, error: seq<byte>)
    requires Judge(packetType, packet).Accepted? && |error| == |packet| >= 4
    requires SetBits(Crc16.Bits(Checked(error))) % 2 == 1
    ensures !Judge(packetType, Xor(packet, error)).Accepted?
  {
    hide Judge, Xor, Flip, IsOfType, Checked, Crc16.IsZero, Crc16.Bits, Crc16.ShiftBits, SetBits;
    ErrorGoesUnnoticed(packetType, packet, error);
    OddBitsAreSeen(Crc16.Bits(Checked(error)));
  }

  /** Packets of up to 4097 bytes: one, two or three flipped bits in header, data and check value are noticed. */
  lemma FewErrorsAreNoticed(packetType: PacketType, packet: seq<byte>, error: seq<byte>)
    requires Judge(packetType, packet).Accepted? && 4 <= |error| == |packet| <= 4097
    requires 1 <= SetBits(Crc16.Bits(Checked(error))) <= 3
    ensures !Judge(packetType, Xor(packet, error)).Accepted?
  {
    hide Judge, Xor, Flip, IsOfType, Checked, Crc16.IsZero, Crc16.Bits, Crc16.ShiftBits, SetBits;
    ErrorGoesUnnoticed(packetType, packet, error);
    CheckedEnds(error);
    FewBitsAreSeen(Crc16.Bits(Checked(error)));
  }
}
