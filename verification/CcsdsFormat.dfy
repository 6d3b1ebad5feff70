/**
 * The strict CCSDS packet format as byte strings: the 6-byte primary header of CCSDS 133.0-B-2, section
 * 4.1.3, the data and an ISO checksum that counts as part of the data field.
 */
module CcsdsFormat {
  import opened Bytes
  import opened SpacePacket
  import IsoChecksum

  // ---------------------------------------------------------------- fields

  function IdHigh(typeCode: byte, destination: bv16): byte {
    (typeCode << 4) | 0x08 | (((destination & 0x0700) >> 8) as byte)
  }

  function SequenceHigh(count: bv16): byte {
    0x80 | 0x40 | (((count & 0x3F00) >> 8) as byte)
  }

  function ReadType(idHigh: byte): byte {
    (idHigh & 0x10) >> 4
  }

  function ReadDestination(idHigh: byte, idLow: byte): bv16 {
    idLow as bv16 | ((idHigh as bv16 & 0x07) << 8)
  }

  function ReadCount(sequenceHigh: byte, sequenceLow: byte): bv16 {
    sequenceLow as bv16 | ((sequenceHigh as bv16 & 0x3F) << 8)
  }

  function ReadLength(field: seq<byte>): (dataSize: nat)
    requires |field| == 2
  {
    field[0] as nat * 256 + field[1] as nat + 1
  }

  lemma StandardWords(typeCode: byte, destination: bv16, count: bv16, idHigh: byte, idLow: byte, sequenceHigh: byte,
                      sequenceLow: byte)
    requires typeCode <= 1 && destination <= 2047 && count <= 16383
    requires idHigh == IdHigh(typeCode, destination) && idLow == Low(destination)
    requires sequenceHigh == SequenceHigh(count) && sequenceLow == Low(count)
    ensures (idHigh as bv16 << 8) | idLow as bv16 == (typeCode as bv16 << 12) | 0x0800 | destination
    ensures (sequenceHigh as bv16 << 8) | sequenceLow as bv16 == 0xC000 | count
  {
  }

  lemma TypeBit(packetType: PacketType)
    ensures TypeCode(packetType) <= 1
    ensures TypeCode(packetType) as bv16 << 12 == if packetType.Telecommand? then 0x1000 else 0x0000
  {
  }

  /**
   * The header is the primary header of the standard, read as three 16-bit words: version 0, type, secondary
   * header flag and destination; both sequence flags and the count; the size of the data field minus one.
   */
  lemma StandardHeader(packetType: PacketType, destination: bv16, count: bv16, dataSize: nat)
    requires destination <= 2047 && count <= 16383 && 1 <= dataSize <= 0x1_0000
    ensures var header := Header(packetType, destination, count, dataSize);
            && (header[0] as bv16 << 8) | header[1] as bv16
               == (if packetType.Telecommand? then 0x1000 else 0x0000) | 0x0800 | destination
            && (header[2] as bv16 << 8) | header[3] as bv16 == 0xC000 | count
            && header[4] as nat * 256 + header[5] as nat == dataSize - 1
  {
    hide IdHigh, SequenceHigh, Low, TypeCode, ShortLengthField;
    var header := Header(packetType, destination, count, dataSize);
    TypeBit(packetType);
    StandardWords(TypeCode(packetType), destination, count, header[0], header[1], header[2], header[3]);
    LengthWord(dataSize);
  }

  lemma LengthWord(dataSize: nat)
    requires 1 <= dataSize <= 0x1_0000
    ensures var field := ShortLengthField(dataSize);
            field[0] as nat * 256 + field[1] as nat == dataSize - 1
  {
    hide ShortLengthField, ReadLength;
    LengthReadBack(dataSize);
    ReadLengthOf(ShortLengthField(dataSize));
  }

  lemma ReadLengthOf(field: seq<byte>)
    requires |field| == 2
    ensures ReadLength(field) == field[0] as nat * 256 + field[1] as nat + 1
  {
  }

  // ---------------------------------------------------------------- packets

  /** `dataSize` counts the checksum too. */
  function Header(packetType: PacketType, destination: bv16, count: bv16, dataSize: nat): (header: seq<byte>)
    ensures |header| == CCSDS_HEADER_SIZE
  {
    [IdHigh(TypeCode(packetType), destination), Low(destination), SequenceHigh(count), Low(count)]
      + ShortLengthField(dataSize)
  }

  function CheckBytes(checked: seq<byte>): (bytes: seq<byte>)
    ensures |bytes| == 2
  {
    [IsoChecksum.CheckHigh(checked) as byte, IsoChecksum.CheckLow(checked) as byte]
  }

  function Packet(packetType: PacketType, destination: bv16, count: bv16, data: seq<byte>): (packet: seq<byte>)
    ensures |packet| == CCSDS_HEADER_SIZE + |data| + ERROR_CONTROL_SIZE
  {
    var checked := Header(packetType, destination, count, |data| + ERROR_CONTROL_SIZE) + data;
    checked + CheckBytes(checked)
  }

  /** The checksum word at the end is the one calculated over everything before it. */
  predicate HasChecksum(packet: seq<byte>)
    requires |packet| >= 2
  {
    var end := |packet| - 2;
    packet[end] as nat * 256 + packet[end + 1] as nat
    == IsoChecksum.CheckHigh(packet[..end]) * 256 + IsoChecksum.CheckLow(packet[..end])
  }

  predicate IsOfType(packetType: PacketType, idHigh: byte) {
    ReadType(idHigh) == TypeCode(packetType)
  }

  /** What the depacketizer decides about a received buffer. A packet that is too small stores no error code. */
  function Judge(packetType: PacketType, packet: seq<byte>): Verdict {
    if |packet| <= CCSDS_HEADER_SIZE + ERROR_CONTROL_SIZE then Rejected(0)
    else
      var dataSize := ReadLength(packet[4..6]);
      if |packet| != CCSDS_HEADER_SIZE + dataSize then Rejected(INCORRECT_PACKET_SIZE)
      else if !HasChecksum(packet) then Rejected(INCORRECT_CHECKSUM)
      else if !IsOfType(packetType, packet[0]) then Rejected(INCORRECT_PACKET_TYPE)
      else Accepted(0, ReadDestination(packet[0], packet[1]), CCSDS_HEADER_SIZE, dataSize - ERROR_CONTROL_SIZE)
  }

  // ---------------------------------------------------------------- round trip

  lemma IdFieldsRoundTrip(typeCode: byte, destination: bv16, high: byte, low: byte, destination': bv16)
    requires typeCode <= 1 && destination <= MAX_APID
    requires high == IdHigh(typeCode, destination) && low == Low(destination)
    requires destination' == ReadDestination(high, low)
    ensures ReadType(high) == typeCode && destination' == destination
  {
  }

  lemma SequenceRoundTrip(count: bv16, high: byte, low: byte, count': bv16)
    requires count <= MAX_SEQUENCE_COUNT
    requires high == SequenceHigh(count) && low == Low(count) && count' == ReadCount(high, low)
    ensures count' == count
  {
  }

  /** The field wraps at 2^16: a size is read back modulo that, in the range from 1. */
  lemma LengthReadBack(dataSize: nat)
    ensures ReadLength(ShortLengthField(dataSize)) == (dataSize - 1) % 0x1_0000 + 1
  {
    if dataSize == 0 {
      assert ShortLengthField(0) == [0xFF, 0xFF];
      return;
    }
    var value := dataSize - 1;
    var q, r1, r0 := LastTwoDigits(value);
    ByteOfDigit(r1);
    ByteOfDigit(r0);
    assert value % 0x1_0000 == r1 * 256 + r0;
  }

  lemma HeaderFields(packetType: PacketType, destination: bv16, count: bv16, dataSize: nat)
    requires destination <= MAX_APID
    ensures var header := Header(packetType, destination, count, dataSize);
            && ReadLength(header[4..6]) == (dataSize - 1) % 0x1_0000 + 1
            && IsOfType(packetType, header[0])
            && ReadDestination(header[0], header[1]) == destination
  {
    hide IdHigh, ReadType, ReadDestination, ShortLengthField, ReadLength, Low, SequenceHigh, TypeCode;
    var header := Header(packetType, destination, count, dataSize);
    assert header[4..6] == ShortLengthField(dataSize);
    LengthReadBack(dataSize);
    TypeCodeIsBit(packetType);
    IdFieldsRoundTrip(TypeCode(packetType), destination, header[0], header[1], ReadDestination(header[0], header[1]));
  }

  lemma PacketParts(packetType: PacketType, destination: bv16, count: bv16, data: seq<byte>)
    ensures var packet := Packet(packetType, destination, count, data);
            var header := Header(packetType, destination, count, |data| + ERROR_CONTROL_SIZE);
            var end := CCSDS_HEADER_SIZE + |data|;
            && packet[4..6] == header[4..6] && packet[0] == header[0] && packet[1] == header[1]
            && packet[2] == header[2] && packet[3] == header[3]
            && packet[CCSDS_HEADER_SIZE..end] == data
            && packet[..end] == header + data
            && packet[end..] == CheckBytes(header + data)
  {
    hide Header, CheckBytes;
    var packet := Packet(packetType, destination, count, data);
    var header := Header(packetType, destination, count, |data| + ERROR_CONTROL_SIZE);
    var checked := header + data;
    assert packet[..CCSDS_HEADER_SIZE] == checked[..CCSDS_HEADER_SIZE] == header;
    assert packet[4..6] == packet[..CCSDS_HEADER_SIZE][4..6];
  }

  lemma BuiltPacketHasChecksum(packet: seq<byte>, end: nat)
    requires |packet| == end + 2 && packet[end..] == CheckBytes(packet[..end])
    ensures HasChecksum(packet)
  {
    var high, low := IsoChecksum.CheckHigh(packet[..end]), IsoChecksum.CheckLow(packet[..end]);
    assert packet[end] == packet[end..][0] && packet[end + 1] == packet[end..][1];
    hide IsoChecksum.CheckHigh, IsoChecksum.CheckLow;
    ByteOfDigit(high);
    ByteOfDigit(low);
  }

  /**
   * Of the sizes the packetizer admits, 1 to 65535, depacketizing returns the packet's fields for all but
   * the last; there the length including the checksum wraps the field and the packet is rejected.
   */
  lemma PacketRoundTrip(packetType: PacketType, destination: bv16, count: bv16, data: seq<byte>)
    requires destination <= 2047 && 1 <= |data| <= 65535
    ensures var packet := Packet(packetType, destination, count, data);
            && (Judge(packetType, packet).Accepted? <==> |data| <= 65534)
            && (|data| <= 65534 ==> Judge(packetType, packet) == Accepted(0, destination, 6, |data|))
            && (|data| == 65535 ==> Judge(packetType, packet) == Rejected(3))
            && packet[6..6 + |data|] == data
  {
    hide Packet, Header, HasChecksum, ReadLength, IsOfType, ReadDestination;
    PacketParts(packetType, destination, count, data);
    HeaderFields(packetType, destination, count, |data| + ERROR_CONTROL_SIZE);
    BuiltPacketHasChecksum(Packet(packetType, destination, count, data), CCSDS_HEADER_SIZE + |data|);
  }

  /** The sequence count of a built packet is the counter it was built with. */
  lemma PacketCount(packetType: PacketType, destination: bv16, count: bv16, data: seq<byte>)
    requires count <= MAX_SEQUENCE_COUNT
    ensures var packet := Packet(packetType, destination, count, data);
            ReadCount(packet[2], packet[3]) == count
  {
    hide Packet, IdHigh, SequenceHigh, ShortLengthField, CheckBytes, Low, ReadCount, TypeCode;
    var packet := Packet(packetType, destination, count, data);
    PacketParts(packetType, destination, count, data);
    SequenceRoundTrip(count, packet[2], packet[3], ReadCount(packet[2], packet[3]));
  }

  // ---------------------------------------------------------------- the checksum test

  lemma WordParts(a: nat, b: nat, c: nat, d: nat)
    requires b < 256 && d < 256
    ensures a * 256 + b == c * 256 + d <==> a == c && b == d
  {
  }

  /** The checksum test passes exactly when both check bytes are non-zero and the whole packet has residue zero. */
  lemma ChecksumTest(packet: seq<byte>)
    requires |packet| >= 2
    ensures HasChecksum(packet)
       <==> packet[|packet| - 2] != 0 && packet[|packet| - 1] != 0 && IsoChecksum.HasZeroResidue(packet)
  {
    var end := |packet| - 2;
    var checked, high, low := packet[..end], packet[end], packet[end + 1];
    assert packet == checked + [high, low];
    IsoChecksum.ChecksumIsZeroResidue(checked, high, low);
    var c0, c1 := IsoChecksum.CheckHigh(checked), IsoChecksum.CheckLow(checked);
    hide IsoChecksum.CheckHigh, IsoChecksum.CheckLow, IsoChecksum.HasZeroResidue;
    WordParts(high as nat, low as nat, c0, c1);
  }

  /** A buffer is accepted exactly when its length field, checksum and type all fit it. */
  lemma JudgeAccepts(packetType: PacketType, packet: seq<byte>)
    ensures Judge(packetType, packet).Accepted?
       <==> |packet| > CCSDS_HEADER_SIZE + ERROR_CONTROL_SIZE
            && |packet| == CCSDS_HEADER_SIZE + ReadLength(packet[4..6])
            && HasChecksum(packet) && IsOfType(packetType, packet[0])
  {
    hide ReadLength, HasChecksum, IsOfType, ReadDestination;
  }

  // ---------------------------------------------------------------- the packet on the wire

  /** A built packet is the standard's header, the data and two non-zero bytes that make both sums vanish modulo 255. */
  lemma PacketOnTheWire(packetType: PacketType, destination: bv16, count: bv16, data: seq<byte>)
    ensures var packet, end := Packet(packetType, destination, count, data), 6 + |data|;
            && |packet| == end + 2 && packet[6..end] == data
            && packet[..6] == Header(packetType, destination, count, |data| + 2)
            && packet[end] != 0 && packet[end + 1] != 0
            && IsoChecksum.Sum(packet) % 255 == 0 && IsoChecksum.WeightedSum(packet) % 255 == 0
  {
    hide Packet, Header, HasChecksum, IsoChecksum.Sum, IsoChecksum.WeightedSum;
    var packet, end := Packet(packetType, destination, count, data), 6 + |data|;
    PacketParts(packetType, destination, count, data);
    BuiltPacketHasChecksum(packet, end);
    ChecksumTest(packet);
    assert packet[..6] == packet[..end][..6];
  }

  lemma ReadBits(high: byte, low: byte)
    ensures ReadDestination(high, low) == ((high & 0x07) as bv16 << 8) | low as bv16
  {
  }

  lemma TypeTest(packetType: PacketType, high: byte)
    ensures IsOfType(packetType, high) <==> high & 0x10 == if packetType.Telecommand? then 0x10 else 0x00
  {
  }

  lemma ReadLengthDigits(packet: seq<byte>)
    requires |packet| >= 6
    ensures ReadLength(packet[4..6]) == packet[4] as nat * 256 + packet[5] as nat + 1
  {
    assert packet[4..6][0] == packet[4] && packet[4..6][1] == packet[5];
  }

  /** Too small a buffer is rejected without a code (0), and one that is not of the length its field says with 3. */
  lemma SizeOnTheWire(packetType: PacketType, packet: seq<byte>)
    ensures Judge(packetType, packet) == Rejected(0) <==> |packet| < 9
    ensures |packet| >= 9 ==>
              (Judge(packetType, packet) == Rejected(3)
               <==> |packet| != 6 + packet[4] as nat * 256 + packet[5] as nat + 1)
  {
    hide ReadLength, HasChecksum, IsOfType, ReadDestination;
    if |packet| >= 9 { ReadLengthDigits(packet); }
  }

  /** Of the others, those are rejected for their checksum that do not end in two non-zero bytes with both sums zero. */
  lemma CheckOnTheWire(packetType: PacketType, packet: seq<byte>)
    requires Judge(packetType, packet) != Rejected(0) && Judge(packetType, packet) != Rejected(3)
    ensures |packet| >= 9
    ensures Judge(packetType, packet) == Rejected(1)
       <==> packet[|packet| - 2] == 0 || packet[|packet| - 1] == 0
            || IsoChecksum.Sum(packet) % 255 != 0 || IsoChecksum.WeightedSum(packet) % 255 != 0
  {
    hide ReadLength, HasChecksum, IsOfType, ReadDestination, IsoChecksum.Sum, IsoChecksum.WeightedSum;
    ChecksumTest(packet);
  }

  /** A buffer that passes these tests is rejected for its type exactly when its type bit is not the expected one. */
  lemma TypeOnTheWire(packetType: PacketType, packet: seq<byte>)
    requires Judge(packetType, packet) != Rejected(0) && Judge(packetType, packet) != Rejected(3)
    requires Judge(packetType, packet) != Rejected(1)
    ensures |packet| >= 9
    ensures Judge(packetType, packet)
         == if packet[0] & 0x10 != (if packetType.Telecommand? then 0x10 else 0x00) then Rejected(2)
            else Accepted(0, ReadDestination(packet[0], packet[1]), 6, |packet| - 8)
  {
    hide ReadLength, HasChecksum, IsOfType, ReadDestination;
    TypeTest(packetType, packet[0]);
  }

  /** The fields read from an accepted buffer, whatever its unchecked bits. */
  lemma FieldsOnTheWire(packetType: PacketType, packet: seq<byte>)
    requires Judge(packetType, packet).Accepted?
    ensures |packet| >= 9
    ensures Judge(packetType, packet)
         == Accepted(0, ((packet[0] & 0x07) as bv16 << 8) | packet[1] as bv16, 6, |packet| - 8)
  {
    hide ReadLength, HasChecksum, IsOfType, ReadDestination;
    ReadBits(packet[0], packet[1]);
  }

  lemma BuiltTypeBit(packetType: PacketType, destination: bv16, count: bv16, dataSize: nat)
    requires destination <= 2047
    ensures Header(packetType, destination, count, dataSize)[0] & 0x10
         == if packetType.Telecommand? then 0x10 else 0x00
  {
    hide IsOfType, ReadLength, ReadDestination, Header;
    HeaderFields(packetType, destination, count, dataSize);
    TypeTest(packetType, Header(packetType, destination, count, dataSize)[0]);
  }

  /** A packet of one type is rejected for its type by a receiver that expects the other. */
  lemma OtherTypeIsRejected(sent: PacketType, expected: PacketType, destination: bv16, count: bv16, data: seq<byte>)
    requires sent != expected && destination <= 2047 && 1 <= |data| <= 65534
    ensures Judge(expected, Packet(sent, destination, count, data)) == Rejected(2)
  {
    hide Packet, Judge, Header;
    var packet := Packet(sent, destination, count, data);
    PacketRoundTrip(sent, destination, count, data);
    PacketParts(sent, destination, count, data);
    BuiltTypeBit(sent, destination, count, |data| + 2);
    SameButType(sent, expected, packet);
  }

  lemma SameButType(sent: PacketType, expected: PacketType, packet: seq<byte>)
    requires Judge(sent, packet).Accepted?
    ensures packet != []
    ensures Judge(expected, packet).Accepted? || Judge(expected, packet) == Rejected(2)
    ensures Judge(expected, packet).Accepted?
       <==> packet[0] & 0x10 == if expected.Telecommand? then 0x10 else 0x00
  {
    hide ReadLength, HasChecksum, IsOfType, ReadDestination;
    TypeTest(expected, packet[0]);
  }

  // ---------------------------------------------------------------- adjacent-byte corruption

  lemma LengthIsUnique(a: seq<byte>, b: seq<byte>)
    requires |a| == 2 && |b| == 2 && ReadLength(a) == ReadLength(b)
    ensures a == b
  {
    WordParts(a[0] as nat, a[1] as nat, b[0] as nat, b[1] as nat);
    SameByte(a[0], b[0]);
    SameByte(a[1], b[1]);
  }

  lemma SwapFlipsType(a: byte, b: byte)
    requires IsoChecksum.IsZeroSwap(a, b) && ReadType(a) == ReadType(b)
    ensures a == b
  {
  }

  lemma SwapMeetsZero(a: byte, b: byte)
    requires IsoChecksum.IsZeroSwap(a, b) && a != 0 && b != 0
    ensures a == b
  {
  }

  lemma NoSwap(a: byte)
    ensures IsoChecksum.IsZeroSwap(a, a)
  {
  }

  /** The two packets differ at most in two adjacent bytes. */
  predicate DifferAt(packet: seq<byte>, received: seq<byte>, k: nat) {
    && |received| == |packet| && k + 1 < |packet|
    && forall i :: 0 <= i < |packet| && i != k && i != k + 1 ==> received[i] == packet[i]
  }

  /** Every byte is unchanged or swapped between the two values that vanish modulo 255. */
  predicate OnlySwaps(packet: seq<byte>, received: seq<byte>)
    requires |received| == |packet|
  {
    forall i :: 0 <= i < |packet| ==> IsoChecksum.IsZeroSwap(packet[i], received[i])
  }

  lemma ResidueAfterCorruption(packet: seq<byte>, received: seq<byte>, k: nat)
    requires DifferAt(packet, received, k) && IsoChecksum.HasZeroResidue(packet)
    ensures IsoChecksum.HasZeroResidue(received) <==> OnlySwaps(packet, received)
  {
    hide IsoChecksum.HasZeroResidue, IsoChecksum.IsZeroSwap;
    var before, after := packet[..k], packet[k + 2..];
    assert packet == before + [packet[k], packet[k + 1]] + after;
    assert received == before + [received[k], received[k + 1]] + after;
    IsoChecksum.AdjacentCorruption(before, packet[k], packet[k + 1], received[k], received[k + 1], after);
    forall i | 0 <= i < |packet| && i != k && i != k + 1
      ensures IsoChecksum.IsZeroSwap(packet[i], received[i])
    {
      NoSwap(packet[i]);
    }
  }

  /**
   * A change of at most two adjacent bytes in an accepted packet, anywhere, goes unnoticed exactly when
   * each changed byte went from 0x00 to 0xFF or back and none of them is the first byte, a length byte or
   * a checksum byte. Any other change is rejected.
   */
  lemma AdjacentCorruption(packetType: PacketType, packet: seq<byte>, received: seq<byte>, k: nat)
    requires Judge(packetType, packet).Accepted? && |received| == |packet| && k + 1 < |packet|
    requires forall i :: 0 <= i < |packet| && i != k && i != k + 1 ==> received[i] == packet[i]
    ensures var end := |packet| - ERROR_CONTROL_SIZE;
            (Judge(packetType, received).Accepted?
             <==> OnlySwaps(packet, received) && received[0] == packet[0]
                  && received[4..6] == packet[4..6] && received[end..] == packet[end..])
  {
    assert DifferAt(packet, received, k);
    hide Judge, HasChecksum, ReadLength, IsOfType, DifferAt, OnlySwaps, IsoChecksum.HasZeroResidue;
    JudgeAccepts(packetType, packet);
    JudgeAccepts(packetType, received);
    ChecksumTest(packet);
    ChecksumTest(received);
    ResidueAfterCorruption(packet, received, k);
    if received[4..6] != packet[4..6] {
      DifferentLength(received[4..6], packet[4..6]);
    } else if Judge(packetType, received).Accepted? {
      UnnoticedSwaps(packetType, packet, received);
    } else if received[|packet| - 2..] == packet[|packet| - 2..] {
      SameCheckBytes(packet, received);
    }
  }

  lemma DifferentLength(a: seq<byte>, b: seq<byte>)
    requires |a| == 2 && |b| == 2 && a != b
    ensures ReadLength(a) != ReadLength(b)
  {
    hide ReadLength;
    if ReadLength(a) == ReadLength(b) { LengthIsUnique(a, b); }
  }

  /** Unnoticed swaps spare the first byte, whose type they would flip, and the check bytes, which are never zero. */
  lemma UnnoticedSwaps(packetType: PacketType, packet: seq<byte>, received: seq<byte>)
    requires |received| == |packet| > CCSDS_HEADER_SIZE && OnlySwaps(packet, received)
    requires HasChecksum(packet) && HasChecksum(received)
    requires IsOfType(packetType, packet[0]) && IsOfType(packetType, received[0])
    ensures received[0] == packet[0] && received[|packet| - 2..] == packet[|packet| - 2..]
  {
    hide HasChecksum, IsOfType, IsoChecksum.HasZeroResidue, IsoChecksum.IsZeroSwap;
    var end := |packet| - ERROR_CONTROL_SIZE;
    ChecksumTest(packet);
    ChecksumTest(received);
    TypeKeepsFirst(packetType, packet[0], received[0]);
    SwapMeetsZero(packet[end], received[end]);
    SwapMeetsZero(packet[end + 1], received[end + 1]);
    assert received[end..] == [received[end], received[end + 1]];
    assert packet[end..] == [packet[end], packet[end + 1]];
  }

  lemma SameCheckBytes(packet: seq<byte>, received: seq<byte>)
    requires |received| == |packet| >= 2 && received[|packet| - 2..] == packet[|packet| - 2..]
    ensures received[|packet| - 2] == packet[|packet| - 2] && received[|packet| - 1] == packet[|packet| - 1]
  {
    var end := |packet| - 2;
    assert received[end..][0] == received[end] && received[end..][1] == received[end + 1];
    assert packet[end..][0] == packet[end] && packet[end..][1] == packet[end + 1];
  }

  lemma TypeKeepsFirst(packetType: PacketType, a: byte, b: byte)
    requires IsoChecksum.IsZeroSwap(a, b) && IsOfType(packetType, a) && IsOfType(packetType, b)
    ensures a == b
  {
    hide ReadType, TypeCode, IsoChecksum.IsZeroSwap;
    SwapFlipsType(a, b);
  }
}
