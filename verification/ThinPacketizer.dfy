/**
 * The thin packet format: a 4-byte header with destination and length, no checksum and no sequence count.
 */
module ThinPacketizer {
  import opened Bytes
  import opened SpacePacket

  // ---------------------------------------------------------------- format

  /** The high byte is OR-ed, not added, to the low byte plus one. */
  function JoinLength(high: byte, low: byte): bv32 {
    (high as bv32 << 8) | (low as bv32 + 1)
  }

  function ReadLength(field: seq<byte>): nat
    requires |field| == 2
  {
    JoinLength(field[0], field[1]) as nat
  }

  function Packet(destination: bv16, data: seq<byte>): (packet: seq<byte>)
    requires data != []
    ensures |packet| == THIN_HEADER_SIZE + |data|
  {
    [High(destination), Low(destination)] + ShortLengthField(|data|) + data
  }

  /** What the depacketizer decides about a received buffer. A packet without a header stores no error code. */
  function Judge(packet: seq<byte>): Verdict {
    if |packet| < THIN_HEADER_SIZE then Rejected(0)
    else
      var dataSize := ReadLength(packet[2..4]);
      if |packet| != THIN_HEADER_SIZE + dataSize then Rejected(INCORRECT_PACKET_SIZE)
      else Accepted(0, Word(packet[0], packet[1]), THIN_HEADER_SIZE, dataSize)
  }

  // ---------------------------------------------------------------- round trip

  lemma RawJoin(high: byte, low: byte, joined: bv32, value: nat)
    requires joined == (high as bv32 << 8) | (low as bv32) && value == joined as nat
    ensures value == high as nat * 256 + low as nat
  {
  }

  lemma JoinWithoutCarry(high: byte, low: byte, next: byte, joined: bv32)
    requires low != 0xFF && next == low + 1 && joined == JoinLength(high, low)
    ensures joined == (high as bv32 << 8) | next as bv32
  {
  }

  lemma JoinWithCarry(high: byte, next: byte, joined: bv32)
    requires next == (high | 1) && joined == JoinLength(high, 0xFF)
    ensures joined == (next as bv32 << 8) | 0
  {
  }

  lemma OddByte(b: byte, next: byte, value: nat)
    requires next == (b | 1) && value == b as nat
    ensures next as nat == if value % 2 == 1 then value else value + 1
  {
  }

  lemma ValueWithoutCarry(high: byte, low: byte, next: byte, joined: bv32, value: nat)
    requires low != 0xFF && next == low + 1 && joined == JoinLength(high, low) && value == joined as nat
    ensures value == high as nat * 256 + next as nat
  {
    hide JoinLength;
    JoinWithoutCarry(high, low, next, joined);
    RawJoin(high, next, joined, value);
  }

  lemma ValueWithCarry(high: byte, next: byte, joined: bv32, value: nat)
    requires next == (high | 1) && joined == JoinLength(high, 0xFF) && value == joined as nat
    ensures value == next as nat * 256
  {
    hide JoinLength;
    JoinWithCarry(high, next, joined);
    RawJoin(next, 0, joined, value);
  }

  lemma NotAllOnes(b: byte)
    ensures b as nat == 255 <==> b == 0xFF
  {
  }

  /** The value read back: low byte plus one joins the high byte, but its carry is lost when the high byte is odd. */
  lemma JoinedValue(high: byte, low: byte, value: nat)
    requires value == JoinLength(high, low) as nat
    ensures value == high as nat * 256 + low as nat + 1 - (if low as nat == 255 && high as nat % 2 == 1 then 256 else 0)
  {
    hide JoinLength;
    var joined := JoinLength(high, low);
    NotAllOnes(low);
    if low == 0xFF {
      var next := high | 1;
      ValueWithCarry(high, next, joined, value);
      OddByte(high, next, high as nat);
    } else {
      var next := low + 1;
      ValueWithoutCarry(high, low, next, joined, value);
      ByteSuccessor(low, next);
    }
  }

  lemma CarryAt512(value: nat, high: nat, low: nat)
    requires high == value / 256 % 256 && low == value % 256
    ensures var size := value % 0x1_0000 + 1;
            && size == high * 256 + low + 1
            && (size % 512 == 0 <==> low == 255 && high % 2 == 1)
  {
    var q, r1, r0 := LastTwoDigits(value);
    assert value % 0x1_0000 == high * 256 + low;
    var half := high / 2;
    assert high == 2 * half + high % 2;
    assert high * 256 + low + 1 == 512 * half + (high % 2 * 256 + low + 1);
    CarryFills(half, high % 2, low);
  }

  lemma CarryFills(half: nat, odd: nat, low: nat)
    requires odd < 2 && low < 256
    ensures (512 * half + (odd * 256 + low + 1)) % 512 == 0 <==> low == 255 && odd == 1
  {
  }

  function ReadBack(size: nat): int {
    if size % 512 == 0 then size - 256 else size
  }

  lemma ReadBackOfDigits(value: nat, high: nat, low: nat, read: nat)
    requires high == value / 256 % 256 && low == value % 256
    requires read == high * 256 + low + 1 - (if low == 255 && high % 2 == 1 then 256 else 0)
    ensures read == ReadBack(value % 0x1_0000 + 1)
  {
    CarryAt512(value, high, low);
  }

  /** What a size is read back as: modulo 2^16, less 256 when it is then a multiple of 512. */
  lemma LengthReadBack(dataSize: nat)
    requires dataSize > 0
    ensures ReadLength(ShortLengthField(dataSize)) == ReadBack((dataSize - 1) % 0x1_0000 + 1)
  {
    hide ReadLength, ReadBack;
    var value := dataSize - 1;
    var high, low := value / 256 % 256, value % 256;
    DigitsReadBack(high, low, ReadLength([high as byte, low as byte]));
    ReadBackOfDigits(value, high, low, ReadLength(ShortLengthField(dataSize)));
  }

  lemma DigitsReadBack(high: nat, low: nat, read: nat)
    requires high < 256 && low < 256 && read == ReadLength([high as byte, low as byte])
    ensures read == high * 256 + low + 1 - (if low == 255 && high % 2 == 1 then 256 else 0)
  {
    hide JoinLength;
    ByteOfDigit(high);
    ByteOfDigit(low);
    JoinedValue(high as byte, low as byte, read);
  }

  lemma ReadBackFits(size: nat)
    requires size > 0
    ensures ReadBack((size - 1) % 0x1_0000 + 1) == size <==> size <= 65535 && size % 512 != 0
  {
  }

  /**
   * Of the sizes the packetizer admits, 1 to 2^32 - 2, depacketizing returns the destination and size
   * exactly for those up to 65535 that are not multiples of 512; every other packet is rejected.
   */
  lemma PacketRoundTrip(destination: bv16, data: seq<byte>)
    requires 1 <= |data| <= 0xFFFF_FFFE
    ensures var packet := Packet(destination, data);
            && (Judge(packet).Accepted? <==> |data| <= 65535 && |data| % 512 != 0)
            && (Judge(packet).Accepted? ==> Judge(packet) == Accepted(0, destination, 4, |data|))
            && (!Judge(packet).Accepted? ==> Judge(packet) == Rejected(3))
            && packet[4..] == data
  {
    hide ReadLength, ReadBack, ShortLengthField, Word, High, Low;
    ReadBackFits(|data|);
    var packet := Packet(destination, data);
    assert packet[2..4] == ShortLengthField(|data|);
    assert packet[0] == High(destination) && packet[1] == Low(destination);
    LengthReadBack(|data|);
    WordRoundTrip(destination, 0, 0);
  }

  // ---------------------------------------------------------------- the packet on the wire

  lemma LengthDigits(dataSize: nat)
    requires dataSize > 0
    ensures var field := ShortLengthField(dataSize);
            field[0] as nat * 256 + field[1] as nat == (dataSize - 1) % 0x1_0000
  {
    var value := dataSize - 1;
    LastDigitsValue(value);
    ByteOfDigit(value / 256 % 256);
    ByteOfDigit(value % 256);
  }

  lemma LastDigitsValue(value: nat)
    ensures value / 256 % 256 * 256 + value % 256 == value % 0x1_0000
  {
    var q, r1, r0 := LastTwoDigits(value);
  }

  /** A built packet as numbers: destination, size minus one cut off to 16 bits, and the data. */
  lemma PacketOnTheWire(destination: bv16, data: seq<byte>)
    requires data != []
    ensures var packet := Packet(destination, data);
            && |packet| == 4 + |data| && packet[4..] == data
            && (packet[0] as bv16 << 8) | packet[1] as bv16 == destination
            && packet[2] as nat * 256 + packet[3] as nat == (|data| - 1) % 0x1_0000
  {
    hide ShortLengthField, Word, High, Low;
    var packet := Packet(destination, data);
    LengthDigits(|data|);
    WordRoundTrip(destination, 0, 0);
    WordInBits(High(destination), Low(destination));
    assert packet[0] == High(destination) && packet[1] == Low(destination);
  }

  /**
   * What the depacketizer decides about any buffer, as numbers: without a header (0), of another length (3), or
   * accepted.
   */
  lemma DecisionOnTheWire(packet: seq<byte>)
    ensures |packet| < 4 ==> Judge(packet) == Rejected(0)
    ensures |packet| >= 4 ==>
              var high, low := packet[2] as nat, packet[3] as nat;
              var size := high * 256 + low + 1 - (if low == 255 && high % 2 == 1 then 256 else 0);
              Judge(packet) == if |packet| != 4 + size then Rejected(3)
                               else Accepted(0, (packet[0] as bv16 << 8) | packet[1] as bv16, 4, size)
  {
    hide ReadLength, Word;
    if |packet| >= 4 {
      ReadLengthDigits(packet);
      WordInBits(packet[0], packet[1]);
    }
  }

  /** The fields read from an accepted buffer. */
  lemma FieldsOnTheWire(packet: seq<byte>)
    requires |packet| >= 4 && Judge(packet).Accepted?
    ensures Judge(packet).destination == (packet[0] as bv16 << 8) | packet[1] as bv16
    ensures Judge(packet) == Accepted(0, Judge(packet).destination, 4, |packet| - 4)
  {
    hide ReadLength, Word;
    WordInBits(packet[0], packet[1]);
  }

  lemma SizeOnTheWire(packet: seq<byte>)
    requires |packet| >= 4
    ensures var high, low := packet[2] as nat, packet[3] as nat;
            Judge(packet).Accepted?
            <==> |packet| == 4 + (high * 256 + low + 1 - (if low == 255 && high % 2 == 1 then 256 else 0))
  {
    hide ReadLength, Word;
    ReadLengthDigits(packet);
  }

  lemma ReadLengthDigits(packet: seq<byte>)
    requires |packet| >= 4
    ensures var high, low := packet[2] as nat, packet[3] as nat;
            ReadLength(packet[2..4]) == high * 256 + low + 1 - if low == 255 && high % 2 == 1 then 256 else 0
  {
    hide JoinLength;
    assert packet[2..4][0] == packet[2] && packet[2..4][1] == packet[3];
    JoinedValue(packet[2], packet[3], ReadLength(packet[2..4]));
  }

  // ---------------------------------------------------------------- buffers

  method WritePacketId(packet: array<byte>, destination: bv16)
    requires THIN_HEADER_SIZE <= packet.Length
    modifies packet
    ensures packet[..] == [Merge(old(packet[0]), High(destination)), Merge(old(packet[1]), Low(destination))]
                          + old(packet[2..])
  {
    hide High, Low, Merge;
    packet[0] := Merge(packet[0], High(destination));
    packet[1] := Merge(packet[1], Low(destination));
  }

  method WritePacketDataLength(packet: array<byte>, dataSize: nat)
    requires THIN_HEADER_SIZE <= packet.Length
    modifies packet
    ensures packet[..] == old(packet[..2]) + ShortLengthField(dataSize) + old(packet[4..])
  {
    packet[2] := ((dataSize - 1) / 256 % 256) as byte;
    packet[3] := ((dataSize - 1) % 256) as byte;
  }

  /** Builds the packet around the data at offset 4; the header bytes may hold anything before. */
  method Packetize(destination: bv16, packet: array<byte>, dataOffset: nat, dataSize: nat) returns (packetSize: nat)
    requires destination <= MAX_APID && dataOffset == THIN_HEADER_SIZE
    requires 1 <= dataSize < MAX_PACKET_DATA_SIZE && THIN_HEADER_SIZE + dataSize <= packet.Length
    modifies packet
    ensures packetSize == THIN_HEADER_SIZE + dataSize
    ensures packet[..packetSize] == Packet(destination, old(packet[dataOffset..dataOffset + dataSize]))
    ensures packet[packetSize..] == old(packet[packetSize..])
  {
    hide High, Low, ShortLengthField, Merge;
    ghost var before := packet[..];
    packet[0], packet[1], packet[2], packet[3] := 0, 0, 0, 0;
    ghost var cleared := packet[..];
    WritePacketId(packet, destination);
    ghost var withId := packet[..];
    WritePacketDataLength(packet, dataSize);
    HeaderWritten(before, cleared, withId, packet[..], destination, dataSize);
    packetSize := THIN_HEADER_SIZE + dataSize;
  }

  lemma HeaderWritten(before: seq<byte>, cleared: seq<byte>, withId: seq<byte>, after: seq<byte>,
                      destination: bv16, dataSize: nat)
    requires 1 <= dataSize && THIN_HEADER_SIZE + dataSize <= |before|
    requires |cleared| == |before| && cleared[4..] == before[4..] && cleared[0] == 0 && cleared[1] == 0
    requires withId == [Merge(cleared[0], High(destination)), Merge(cleared[1], Low(destination))] + cleared[2..]
    requires after == withId[..2] + ShortLengthField(dataSize) + withId[4..]
    ensures var end := THIN_HEADER_SIZE + dataSize;
            after[..end] == Packet(destination, before[THIN_HEADER_SIZE..end]) && after[end..] == before[end..]
  {
    hide High, Low, ShortLengthField, Merge;
    MergeIntoZero(High(destination));
    MergeIntoZero(Low(destination));
    assert withId[4..] == cleared[4..];
  }

  /** Decides about a received packet exactly as Judge does, without changing it. */
  method Depacketize(packet: array<byte>, packetSize: nat) returns (verdict: Verdict)
    requires packetSize <= packet.Length
    ensures verdict == Judge(packet[..packetSize])
  {
    hide ReadLength, Word;
    if packetSize < THIN_HEADER_SIZE {
      return Rejected(0);
    }
    assert packet[..packetSize][2..4] == packet[2..4];
    var receivedDataSize := ReadLength(packet[2..4]);
    if packetSize != THIN_HEADER_SIZE + receivedDataSize {
      return Rejected(INCORRECT_PACKET_SIZE);
    }
    verdict := Accepted(0, Word(packet[0], packet[1]), THIN_HEADER_SIZE, receivedDataSize);
  }
}
