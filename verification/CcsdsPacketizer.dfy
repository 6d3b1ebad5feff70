/** The strict CCSDS packetizer on buffers. */
module CcsdsPacketizer {
  import opened Bytes
  import opened SpacePacket
  import opened CcsdsFormat
  import IsoChecksum

  method WritePacketId(packet: array<byte>, packetType: PacketType, destination: bv16)
    requires CCSDS_HEADER_SIZE <= packet.Length
    modifies packet
    ensures packet[..] == [Merge(old(packet[0]), IdHigh(TypeCode(packetType), destination)),
                           Merge(old(packet[1]), Low(destination))] + old(packet[2..])
  {
    hide IdHigh, Low, TypeCode, Merge;
    ghost var high, low := packet[0], packet[1];
    packet[0] := Merge(packet[0], TypeCode(packetType) << 4);
    packet[0] := Merge(packet[0], 1 << 3);
    packet[0] := Merge(packet[0], ((destination & 0x0700) >> 8) as byte);
    packet[1] := Merge(packet[1], (destination & 0xFF) as byte);
    IdBytes(high, low, TypeCode(packetType), destination, packet[0], packet[1]);
  }

  lemma IdBytes(was: byte, wasLow: byte, typeCode: byte, destination: bv16, high: byte, low: byte)
    requires high == Merge(Merge(Merge(was, typeCode << 4), 1 << 3), ((destination & 0x0700) >> 8) as byte)
    requires low == Merge(wasLow, (destination & 0xFF) as byte)
    ensures high == Merge(was, IdHigh(typeCode, destination)) && low == Merge(wasLow, Low(destination))
  {
  }

  method WritePacketSequenceControl(packet: array<byte>, packetizer: Packetizer)
    requires CCSDS_HEADER_SIZE <= packet.Length
    modifies packet
    ensures var count := packetizer.packetSequenceCount;
            packet[..] == [old(packet[0]), old(packet[1]), Merge(old(packet[2]), SequenceHigh(count)),
                           Merge(old(packet[3]), Low(count))] + old(packet[4..])
  {
    hide SequenceHigh, Low, Merge;
    var count := packetizer.packetSequenceCount;
    ghost var high, low := packet[2], packet[3];
    packet[2] := Merge(packet[2], 1 << 7);
    packet[2] := Merge(packet[2], 1 << 6);
    packet[2] := Merge(packet[2], ((count & 0x3F00) >> 8) as byte);
    packet[3] := Merge(packet[3], (count & 0xFF) as byte);
    SequenceBytes(high, low, count, packet[2], packet[3]);
  }

  lemma SequenceBytes(was: byte, wasLow: byte, count: bv16, high: byte, low: byte)
    requires high == Merge(Merge(Merge(was, 1 << 7), 1 << 6), ((count & 0x3F00) >> 8) as byte)
    requires low == Merge(wasLow, (count & 0xFF) as byte)
    ensures high == Merge(was, SequenceHigh(count)) && low == Merge(wasLow, Low(count))
  {
  }

  method WritePacketDataLength(packet: array<byte>, dataSize: nat)
    requires CCSDS_HEADER_SIZE <= packet.Length
    modifies packet
    ensures packet[..] == old(packet[..4]) + ShortLengthField(dataSize) + old(packet[6..])
  {
    packet[4] := ((dataSize - 1) / 256 % 256) as byte;
    packet[5] := ((dataSize - 1) % 256) as byte;
  }

  method WriteChecksum(packet: array<byte>, dataSize: nat)
    requires CCSDS_HEADER_SIZE + dataSize + ERROR_CONTROL_SIZE <= packet.Length
    modifies packet
    ensures var end := CCSDS_HEADER_SIZE + dataSize;
            packet[..] == old(packet[..end]) + CheckBytes(old(packet[..end])) + old(packet[end + 2..])
  {
    var checksumInputSize := CCSDS_HEADER_SIZE + dataSize;
    var checksum := IsoChecksum.Calculate(packet, checksumInputSize);
    CheckWord(packet[..checksumInputSize], checksum);
    hide CheckBytes, IsoChecksum.CheckHigh, IsoChecksum.CheckLow;
    packet[checksumInputSize] := (checksum / 256 % 256) as byte;
    packet[checksumInputSize + 1] := (checksum % 256) as byte;
  }

  lemma CheckWord(checked: seq<byte>, checksum: nat)
    requires checksum == IsoChecksum.CheckHigh(checked) * 256 + IsoChecksum.CheckLow(checked)
    ensures CheckBytes(checked) == [(checksum / 256 % 256) as byte, (checksum % 256) as byte]
  {
    var high, low := IsoChecksum.CheckHigh(checked), IsoChecksum.CheckLow(checked);
    hide IsoChecksum.CheckHigh, IsoChecksum.CheckLow;
    SplitWord(high, low);
  }

  lemma SplitWord(high: nat, low: nat)
    requires high < 256 && low < 256
    ensures (high * 256 + low) / 256 % 256 == high && (high * 256 + low) % 256 == low
  {
  }

  method ClearHeader(packet: array<byte>)
    requires CCSDS_HEADER_SIZE <= packet.Length
    modifies packet
    ensures packet[..] == [0, 0, 0, 0, 0, 0] + old(packet[CCSDS_HEADER_SIZE..])
  {
    packet[0], packet[1], packet[2] := 0, 0, 0;
    packet[3], packet[4], packet[5] := 0, 0, 0;
  }

  /**
   * Builds the packet around the data at offset 6. The buffer then starts with exactly the packet, whatever
   * its header and trailer bytes held before, and the counter moves on by one.
   */
  method Packetize(self: Packetizer, packetType: PacketType, destination: bv16,
                   packet: array<byte>, dataOffset: nat, dataSize: nat)
      returns (packetSize: nat)
    requires self.packetSequenceCount <= MAX_SEQUENCE_COUNT && destination <= MAX_APID
    requires dataOffset == CCSDS_HEADER_SIZE && 1 <= dataSize < CCSDS_MAX_PACKET_DATA_SIZE
    requires CCSDS_HEADER_SIZE + dataSize + ERROR_CONTROL_SIZE <= packet.Length
    modifies self, packet
    ensures packetSize == CCSDS_HEADER_SIZE + dataSize + ERROR_CONTROL_SIZE
    ensures packet[..packetSize]
         == Packet(packetType, destination, old(self.packetSequenceCount),
                   old(packet[dataOffset..dataOffset + dataSize]))
    ensures packet[packetSize..] == old(packet[packetSize..])
    ensures self.packetSequenceCount == NextCount(old(self.packetSequenceCount))
  {
    hide Packet, Header, ShortLengthField, CheckBytes, Merge, NextCount;
    ghost var count, before := self.packetSequenceCount, packet[..];
    var dataSizeWithErr := dataSize + ERROR_CONTROL_SIZE;
    ClearHeader(packet);
    ghost var cleared := packet[..];
    WritePacketId(packet, packetType, destination);
    ghost var withId := packet[..];
    WritePacketSequenceControl(packet, self);
    ghost var withCount := packet[..];
    WritePacketDataLength(packet, dataSizeWithErr);
    HeaderWritten(before, cleared, withId, withCount, packet[..], packetType, destination, count, dataSizeWithErr);
    ghost var withHeader := packet[..];
    WriteChecksum(packet, dataSize);
    ChecksumWritten(before, withHeader, packet[..], packetType, destination, count, dataSize);
    self.CountPacket();
    packetSize := CCSDS_HEADER_SIZE + dataSizeWithErr;
  }

  lemma HeaderWritten(before: seq<byte>, cleared: seq<byte>, withId: seq<byte>, withCount: seq<byte>, after: seq<byte>,
                      packetType: PacketType, destination: bv16, count: bv16, dataSize: nat)
    requires CCSDS_HEADER_SIZE <= |before|
    requires cleared == [0, 0, 0, 0, 0, 0] + before[CCSDS_HEADER_SIZE..]
    requires withId == [Merge(cleared[0], IdHigh(TypeCode(packetType), destination)),
                        Merge(cleared[1], Low(destination))] + cleared[2..]
    requires withCount == [withId[0], withId[1], Merge(withId[2], SequenceHigh(count)), Merge(withId[3], Low(count))]
                          + withId[4..]
    requires after == withCount[..4] + ShortLengthField(dataSize) + withCount[6..]
    ensures after == Header(packetType, destination, count, dataSize) + before[CCSDS_HEADER_SIZE..]
  {
    hide IdHigh, SequenceHigh, Low, TypeCode, ShortLengthField, Merge;
    MergeIntoZero(IdHigh(TypeCode(packetType), destination));
    MergeIntoZero(Low(destination));
    MergeIntoZero(SequenceHigh(count));
    MergeIntoZero(Low(count));
    assert withCount[6..] == withId[6..] == cleared[6..] == before[CCSDS_HEADER_SIZE..];
  }

  lemma ChecksumWritten(before: seq<byte>, withHeader: seq<byte>, after: seq<byte>,
                        packetType: PacketType, destination: bv16, count: bv16, dataSize: nat)
    requires |before| == |withHeader| && CCSDS_HEADER_SIZE + dataSize + 2 <= |before|
    requires withHeader
             == Header(packetType, destination, count, dataSize + ERROR_CONTROL_SIZE) + before[CCSDS_HEADER_SIZE..]
    requires var end := CCSDS_HEADER_SIZE + dataSize;
             after == withHeader[..end] + CheckBytes(withHeader[..end]) + withHeader[end + 2..]
    ensures var end := CCSDS_HEADER_SIZE + dataSize;
            && after[..end + 2] == Packet(packetType, destination, count, before[CCSDS_HEADER_SIZE..end])
            && after[end + 2..] == before[end + 2..]
  {
    hide Header, CheckBytes;
    var end := CCSDS_HEADER_SIZE + dataSize;
    assert withHeader[..end]
           == Header(packetType, destination, count, dataSize + ERROR_CONTROL_SIZE) + before[CCSDS_HEADER_SIZE..end];
    assert withHeader[end + 2..] == before[end + 2..];
  }

  function ReadChecksum(high: byte, low: byte): nat {
    high as nat * 256 + low as nat
  }

  lemma ChecksumWords(packet: seq<byte>, received: nat, expected: nat)
    requires |packet| > 2 && received == ReadChecksum(packet[|packet| - 2], packet[|packet| - 1])
    requires expected
             == IsoChecksum.CheckHigh(packet[..|packet| - 2]) * 256 + IsoChecksum.CheckLow(packet[..|packet| - 2])
    ensures HasChecksum(packet) <==> received == expected
  {
    hide IsoChecksum.CheckHigh, IsoChecksum.CheckLow;
  }

  /** Decides about a received packet exactly as Judge does, without changing it. */
  method Depacketize(packetType: PacketType, packet: array<byte>, packetSize: nat) returns (verdict: Verdict)
    requires packetSize <= packet.Length
    ensures verdict == Judge(packetType, packet[..packetSize])
  {
    hide IsoChecksum.CheckHigh, IsoChecksum.CheckLow, HasChecksum, ReadChecksum, ReadLength, ReadDestination, IsOfType;
    ghost var received := packet[..packetSize];
    if packetSize <= CCSDS_HEADER_SIZE + ERROR_CONTROL_SIZE {
      return Rejected(0);
    }
    assert received[4..6] == packet[4..6];
    var receivedDataSize := ReadLength(packet[4..6]);
    if packetSize != CCSDS_HEADER_SIZE + receivedDataSize {
      return Rejected(INCORRECT_PACKET_SIZE);
    }
    var receivedChecksum := ReadChecksum(packet[CCSDS_HEADER_SIZE + receivedDataSize - 2],
                                         packet[CCSDS_HEADER_SIZE + receivedDataSize - 1]);
    var expectedChecksum := IsoChecksum.Calculate(packet, packetSize - ERROR_CONTROL_SIZE);
    assert received[..packetSize - 2] == packet[..packetSize - 2];
    ChecksumWords(received, receivedChecksum, expectedChecksum);
    if receivedChecksum != expectedChecksum {
      return Rejected(INCORRECT_CHECKSUM);
    }
    if !IsOfType(packetType, packet[0]) {
      return Rejected(INCORRECT_PACKET_TYPE);
    }
    verdict :=
      Accepted(0, ReadDestination(packet[0], packet[1]), CCSDS_HEADER_SIZE, receivedDataSize - ERROR_CONTROL_SIZE);
  }
}
