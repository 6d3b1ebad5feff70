/**
 * The default packetizer on buffers: header, sender and check bytes are written around data that already
 * stands at its offset.
 */
module DefaultPacketizer {
  import opened Bytes
  import opened SpacePacket
  import opened PacketFormat
  import Crc16

  method WritePacketId(packet: array<byte>, packetType: PacketType, destination: bv16)
    requires HEADER_SIZE <= packet.Length
    modifies packet
    ensures packet[..] == [Merge(old(packet[0]), IdHigh(TypeCode(packetType), destination)),
                           Merge(old(packet[1]), Low(destination))] + old(packet[2..])
  {
    hide IdHigh, Low, TypeCode, Merge;
    ghost var high, low := packet[0], packet[1];
    packet[0] := Merge(packet[0], TypeCode(packetType) << 3);
    packet[0] := Merge(packet[0], 1 << 4);
    packet[0] := Merge(packet[0], ((destination & 0x0700) >> 3) as byte);
    packet[1] := Merge(packet[1], (destination & 0xFF) as byte);
    IdBytes(high, low, TypeCode(packetType), destination, packet[0], packet[1]);
  }

  lemma IdBytes(was: byte, wasLow: byte, typeCode: byte, destination: bv16, high: byte, low: byte)
    requires high == Merge(Merge(Merge(was, typeCode << 3), 1 << 4), ((destination & 0x0700) >> 3) as byte)
    requires low == Merge(wasLow, (destination & 0xFF) as byte)
    ensures high == Merge(was, IdHigh(typeCode, destination)) && low == Merge(wasLow, Low(destination))
  {
  }

  method WritePacketSequenceControl(packet: array<byte>, packetizer: Packetizer)
    requires HEADER_SIZE <= packet.Length
    modifies packet
    ensures var count := packetizer.packetSequenceCount;
            packet[..] == [old(packet[0]), old(packet[1]), Merge(old(packet[2]), SequenceHigh(count)),
                           Merge(old(packet[3]), Low(count))] + old(packet[4..])
  {
    hide SequenceHigh, Low, Merge;
    var count := packetizer.packetSequenceCount;
    ghost var high, low := packet[2], packet[3];
    packet[2] := Merge(packet[2], 1 << 0);
    packet[2] := Merge(packet[2], 1 << 1);
    packet[2] := Merge(packet[2], ((count & 0x3F00) >> 6) as byte);
    packet[3] := Merge(packet[3], (count & 0xFF) as byte);
    SequenceBytes(high, low, count, packet[2], packet[3]);
  }

  lemma SequenceBytes(was: byte, wasLow: byte, count: bv16, high: byte, low: byte)
    requires high == Merge(Merge(Merge(was, 1 << 0), 1 << 1), ((count & 0x3F00) >> 6) as byte)
    requires low == Merge(wasLow, (count & 0xFF) as byte)
    ensures high == Merge(was, SequenceHigh(count)) && low == Merge(wasLow, Low(count))
  {
  }

  method WritePacketDataLength(packet: array<byte>, dataSize: nat)
    requires HEADER_SIZE <= packet.Length
    modifies packet
    ensures packet[..] == old(packet[..4]) + LengthField(dataSize) + old(packet[8..])
  {
    if dataSize != 0 {
      packet[4] := ((dataSize - 1) / 0x100_0000 % 256) as byte;
      packet[5] := ((dataSize - 1) / 0x1_0000 % 256) as byte;
      packet[6] := ((dataSize - 1) / 256 % 256) as byte;
      packet[7] := ((dataSize - 1) % 256) as byte;
    } else {
      packet[4] := 0xFF;
      packet[5] := 0xFF;
      packet[6] := 0xFF;
      packet[7] := 0xFF;
    }
  }

  method WriteSenderPid(packet: array<byte>, dataSize: nat, senderPid: bv16)
    requires OVERHEAD + dataSize <= packet.Length
    modifies packet
    ensures var end := HEADER_SIZE + dataSize;
            packet[..] == old(packet[..end]) + WordBytes(senderPid) + old(packet[end + 2..])
  {
    hide High, Low;
    packet[HEADER_SIZE + dataSize] := High(senderPid);
    packet[HEADER_SIZE + dataSize + 1] := Low(senderPid);
  }

  method WriteCrc(packet: array<byte>, dataSize: nat)
    requires OVERHEAD + dataSize <= packet.Length
    modifies packet
    ensures var end := HEADER_SIZE + dataSize;
            packet[..] == old(packet[..end + 2]) + WordBytes(CheckValue(old(packet[..end]))) + old(packet[end + 4..])
  {
    hide High, Low, Crc16.Crc;
    var crc := Crc16.CalculateCrc16(packet, HEADER_SIZE + dataSize);
    packet[HEADER_SIZE + dataSize + SENDER_PID_SIZE] := High(crc);
    packet[HEADER_SIZE + dataSize + SENDER_PID_SIZE + 1] := Low(crc);
  }

  /**
   * Builds the packet around the data at offset 8. The buffer then starts with exactly the packet, whatever
   * its header and trailer bytes held before, and the counter moves on by one.
   */
  method Packetize(self: Packetizer, packetType: PacketType, source: bv16, destination: bv16,
                   packet: array<byte>, dataOffset: nat, dataSize: nat)
      returns (packetSize: nat)
    requires self.packetSequenceCount <= MAX_SEQUENCE_COUNT && destination <= MAX_APID
    requires dataOffset == HEADER_SIZE && dataSize < MAX_PACKET_DATA_SIZE
    requires OVERHEAD + dataSize <= packet.Length
    modifies self, packet
    ensures packetSize == OVERHEAD + dataSize
    ensures packet[..packetSize]
         == Packet(packetType, source, destination, old(self.packetSequenceCount),
                   old(packet[dataOffset..dataOffset + dataSize]))
    ensures packet[packetSize..] == old(packet[packetSize..])
    ensures self.packetSequenceCount == NextCount(old(self.packetSequenceCount))
  {
    hide Packet, Header, LengthField, CheckValue, Merge, WordBytes, NextCount;
    ghost var count, before := self.packetSequenceCount, packet[..];
    ClearHeader(packet);
    ghost var cleared := packet[..];
    WritePacketId(packet, packetType, destination);
    ghost var withId := packet[..];
    WritePacketSequenceControl(packet, self);
    ghost var withCount := packet[..];
    WritePacketDataLength(packet, dataSize);
    HeaderWritten(before, cleared, withId, withCount, packet[..], packetType, destination, count, dataSize);
    ghost var withHeader := packet[..];
    WriteSenderPid(packet, dataSize, source);
    ghost var withSender := packet[..];
    WriteCrc(packet, dataSize);
    TrailerWritten(before, withHeader, withSender, packet[..], packetType, source, destination, count, dataSize);
    self.CountPacket();
    packetSize := HEADER_SIZE + dataSize + SENDER_PID_SIZE + ERROR_CONTROL_SIZE;
  }

  method ClearHeader(packet: array<byte>)
    requires HEADER_SIZE <= packet.Length
    modifies packet
    ensures packet[..] == [0, 0, 0, 0, 0, 0, 0, 0] + old(packet[HEADER_SIZE..])
  {
    packet[0], packet[1], packet[2], packet[3] := 0, 0, 0, 0;
    packet[4], packet[5], packet[6], packet[7] := 0, 0, 0, 0;
  }

  lemma HeaderWritten(before: seq<byte>, cleared: seq<byte>, withId: seq<byte>, withCount: seq<byte>, after: seq<byte>,
                      packetType: PacketType, destination: bv16, count: bv16, dataSize: nat)
    requires HEADER_SIZE <= |before| && cleared == [0, 0, 0, 0, 0, 0, 0, 0] + before[HEADER_SIZE..]
    requires withId == [Merge(cleared[0], IdHigh(TypeCode(packetType), destination)),
                        Merge(cleared[1], Low(destination))] + cleared[2..]
    requires withCount == [withId[0], withId[1], Merge(withId[2], SequenceHigh(count)), Merge(withId[3], Low(count))]
                          + withId[4..]
    requires after == withCount[..4] + LengthField(dataSize) + withCount[8..]
    ensures after == Header(packetType, destination, count, dataSize) + before[HEADER_SIZE..]
  {
    hide IdHigh, SequenceHigh, Low, TypeCode, LengthField, Merge;
    MergeIntoZero(IdHigh(TypeCode(packetType), destination));
    MergeIntoZero(Low(destination));
    MergeIntoZero(SequenceHigh(count));
    MergeIntoZero(Low(count));
    assert withCount[8..] == withId[8..] == cleared[8..] == before[HEADER_SIZE..];
  }

  lemma TrailerWritten(before: seq<byte>, withHeader: seq<byte>, withSender: seq<byte>, after: seq<byte>,
                       packetType: PacketType, source: bv16, destination: bv16, count: bv16, dataSize: nat)
    requires |before| == |withHeader| && OVERHEAD + dataSize <= |before|
    requires withHeader == Header(packetType, destination, count, dataSize) + before[HEADER_SIZE..]
    requires var end := HEADER_SIZE + dataSize;
             && withSender == withHeader[..end] + WordBytes(source) + withHeader[end + 2..]
             && after == withSender[..end + 2] + WordBytes(CheckValue(withSender[..end])) + withSender[end + 4..]
    ensures after[..OVERHEAD + dataSize]
         == Packet(packetType, source, destination, count, before[HEADER_SIZE..HEADER_SIZE + dataSize])
    ensures after[OVERHEAD + dataSize..] == before[OVERHEAD + dataSize..]
  {
    hide Header, CheckValue, WordBytes;
    var end := HEADER_SIZE + dataSize;
    assert withHeader[..end] == Header(packetType, destination, count, dataSize) + before[HEADER_SIZE..end];
    assert withHeader[end + 4..] == before[end + 4..];
    assert withSender[..end] == withHeader[..end];
    assert withSender[..end + 2] == withHeader[..end] + WordBytes(source);
    assert withSender[end + 4..] == withHeader[end + 4..];
  }

  /** Decides about a received packet exactly as Judge does, without changing it. */
  method Depacketize(packetType: PacketType, packet: array<byte>, packetSize: nat) returns (verdict: Verdict)
    requires packetSize <= packet.Length
    ensures verdict == Judge(packetType, packet[..packetSize])
  {
    hide ReadLength, Crc16.Crc, ReadDestination, Word, IsOfType;
    ghost var received := packet[..packetSize];
    if packetSize < HEADER_SIZE + SENDER_PID_SIZE + ERROR_CONTROL_SIZE {
      return Rejected(PACKET_TOO_SMALL);
    }
    assert received[4..8] == packet[4..8];
    var receivedDataSize := ReadLength(packet[4..8]);
    if packetSize != HEADER_SIZE + receivedDataSize + SENDER_PID_SIZE + ERROR_CONTROL_SIZE {
      return Rejected(INCORRECT_PACKET_SIZE);
    }
    var senderPid := Word(packet[HEADER_SIZE + receivedDataSize], packet[HEADER_SIZE + receivedDataSize + 1]);
    var receivedCrc := Word(packet[HEADER_SIZE + receivedDataSize + SENDER_PID_SIZE],
                            packet[HEADER_SIZE + receivedDataSize + SENDER_PID_SIZE + 1]);
    var expectedCrc := Crc16.CalculateCrc16(packet, packetSize - SENDER_PID_SIZE - ERROR_CONTROL_SIZE);
    assert received[..HEADER_SIZE + receivedDataSize] == packet[..HEADER_SIZE + receivedDataSize];
    if receivedCrc != expectedCrc {
      return Rejected(INCORRECT_CHECKSUM);
    }
    if !IsOfType(packetType, packet[0]) {
      return Rejected(INCORRECT_PACKET_TYPE);
    }
    verdict := Accepted(senderPid, ReadDestination(packet[0], packet[1]), HEADER_SIZE, receivedDataSize);
  }
}
