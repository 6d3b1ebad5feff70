/**
 * The default packet format as byte strings: an 8-byte header with a 32-bit length, the data, the sender
 * and a CRC over header and data. Packetizer.dfy proves the buffer-level code against these definitions.
 */
module PacketFormat {
  import opened Bytes
  import opened SpacePacket
  import Crc16

  const OVERHEAD := HEADER_SIZE + SENDER_PID_SIZE + ERROR_CONTROL_SIZE

  // ---------------------------------------------------------------- fields

  /** Type, secondary header flag and the high destination bits. */
  function IdHigh(typeCode: byte, destination: bv16): byte {
    (typeCode << 3) | 0x10 | (((destination & 0x0700) >> 3) as byte)
  }

  /** Both sequence flags and the high counter bits. */
  function SequenceHigh(count: bv16): byte {
    0x01 | 0x02 | (((count & 0x3F00) >> 6) as byte)
  }

  function ReadType(idHigh: byte): byte {
    (idHigh & 0x08) >> 3
  }

  function ReadDestination(idHigh: byte, idLow: byte): bv16 {
    idLow as bv16 | ((idHigh & 0xE0) as bv16 << 3)
  }

  function ReadCount(sequenceHigh: byte, sequenceLow: byte): bv16 {
    sequenceLow as bv16 | ((sequenceHigh & 0xFC) as bv16 << 6)
  }

  /** Four bytes of a 32-bit value, the most significant first. */
  function BigEndian(value: nat): (bytes: seq<byte>)
    ensures |bytes| == 4
  {
    [(value / 0x100_0000 % 256) as byte, (value / 0x1_0000 % 256) as byte, (value / 256 % 256) as byte,
     (value % 256) as byte]
  }

  function FromDigits(a: nat, b: nat, c: nat, d: nat): nat {
    a * 0x100_0000 + b * 0x1_0000 + c * 256 + d
  }

  function FromBigEndian(bytes: seq<byte>): (value: nat)
    requires |bytes| == 4
  {
    FromDigits(bytes[0] as nat, bytes[1] as nat, bytes[2] as nat, bytes[3] as nat)
  }

  /** The length field: size minus one, with all ones standing for size zero. */
  function LengthField(dataSize: nat): (bytes: seq<byte>)
    ensures |bytes| == 4
  {
    if dataSize != 0 then BigEndian(dataSize - 1) else [0xFF, 0xFF, 0xFF, 0xFF]
  }

  function ReadLength(field: seq<byte>): nat
    requires |field| == 4
  {
    var value := FromBigEndian(field);
    if value == 0xFFFF_FFFF then 0 else value + 1
  }

  // ---------------------------------------------------------------- packets

  function Header(packetType: PacketType, destination: bv16, count: bv16, dataSize: nat): (header: seq<byte>)
    ensures |header| == HEADER_SIZE
  {
    [IdHigh(TypeCode(packetType), destination), Low(destination), SequenceHigh(count), Low(count)]
      + LengthField(dataSize)
  }

  function WordBytes(word: bv16): (bytes: seq<byte>)
    ensures |bytes| == 2
  {
    [High(word), Low(word)]
  }

  function CheckValue(checked: seq<byte>): bv16 {
    Crc16.Crc(Crc16.INITIAL_VALUE, checked)
  }

  function Packet(packetType: PacketType, source: bv16, destination: bv16, count: bv16,
                  data: seq<byte>): (packet: seq<byte>)
    ensures |packet| == |data| + OVERHEAD
  {
    var checked := Header(packetType, destination, count, |data|) + data;
    checked + WordBytes(source) + WordBytes(CheckValue(checked))
  }

  /** The two bytes at the end hold the check value of the first `end` bytes. */
  predicate HasCheckValue(packet: seq<byte>, end: nat)
    requires |packet| == end + 4
  {
    Word(packet[end + 2], packet[end + 3]) == CheckValue(packet[..end])
  }

  predicate IsOfType(packetType: PacketType, idHigh: byte) {
    ReadType(idHigh) == TypeCode(packetType)
  }

  /** What the depacketizer decides about a received buffer. */
  function Judge(packetType: PacketType, packet: seq<byte>): Verdict {
    if |packet| < OVERHEAD then Rejected(PACKET_TOO_SMALL)
    else
      var dataSize := ReadLength(packet[4..8]);
      if |packet| != dataSize + OVERHEAD then Rejected(INCORRECT_PACKET_SIZE)
      else
        var end := HEADER_SIZE + dataSize;
        if !HasCheckValue(packet, end) then Rejected(INCORRECT_CHECKSUM)
        else if !IsOfType(packetType, packet[0]) then Rejected(INCORRECT_PACKET_TYPE)
        else Accepted(Word(packet[end], packet[end + 1]), ReadDestination(packet[0], packet[1]), HEADER_SIZE, dataSize)
  }

  /** A buffer is accepted exactly when its length field, check value and type all fit it. */
  lemma JudgeAccepts(packetType: PacketType, packet: seq<byte>)
    ensures Judge(packetType, packet).Accepted?
       <==> |packet| >= OVERHEAD && |packet| == ReadLength(packet[4..8]) + OVERHEAD
            && HasCheckValue(packet, |packet| - 4) && IsOfType(packetType, packet[0])
    ensures Judge(packetType, packet).Accepted? ==> |packet| == Judge(packetType, packet).dataSize + OVERHEAD
    ensures |packet| >= OVERHEAD && |packet| != ReadLength(packet[4..8]) + OVERHEAD ==>
              Judge(packetType, packet) == Rejected(INCORRECT_PACKET_SIZE)
  {
    hide ReadLength, HasCheckValue, IsOfType, ReadDestination, Word;
  }

  // ---------------------------------------------------------------- field round trips

  lemma IdFieldsRoundTrip(typeCode: byte, destination: bv16, high: byte, low: byte, destination': bv16)
    requires typeCode <= 1 && destination <= MAX_APID
    requires high == IdHigh(typeCode, destination) && low == Low(destination)
    requires destination' == ReadDestination(high, low)
    ensures ReadType(high) == typeCode && destination' == destination
  {
  }

  lemma SequenceRoundTrip(count: bv16, high: byte, low: byte, count': bv16)
    requires count <= MAX_SEQUENCE_COUNT
    requires high == SequenceHigh(count) && low == Low(count) && count' == ReadCount(high, low)
    ensures count' == count
  {
  }

  lemma Digits(value: nat)
    requires value <= 0xFFFF_FFFF
    ensures value == FromDigits(value / 0x100_0000 % 256, value / 0x1_0000 % 256, value / 256 % 256, value % 256)
  {
    var q, r2, r1, r0 := LastThreeDigits(value);
    assert q < 256;
    SmallDigit(q);
    assert FromDigits(q, r2, r1, r0) == value;
  }

  lemma SmallDigit(q: nat)
    requires q < 256
    ensures q % 256 == q
  {
  }

  lemma BigEndianRoundTrip(value: nat)
    requires value <= 0xFFFF_FFFF
    ensures FromBigEndian(BigEndian(value)) == value
  {
    hide FromDigits;
    Digits(value);
    ByteOfDigit(value / 0x100_0000 % 256);
    ByteOfDigit(value / 0x1_0000 % 256);
    ByteOfDigit(value / 256 % 256);
    ByteOfDigit(value % 256);
  }

  lemma DigitsAreUnique(a: nat, b: nat, c: nat, d: nat, a': nat, b': nat, c': nat, d': nat)
    requires b < 256 && c < 256 && d < 256 && b' < 256 && c' < 256 && d' < 256
    requires FromDigits(a, b, c, d) == FromDigits(a', b', c', d')
    ensures a == a' && b == b' && c == c' && d == d'
  {
  }

  lemma FieldIsUnique(a: seq<byte>, b: seq<byte>)
    requires |a| == 4 && |b| == 4 && FromBigEndian(a) == FromBigEndian(b)
    ensures a == b
  {
    hide FromDigits;
    DigitsAreUnique(a[0] as nat, a[1] as nat, a[2] as nat, a[3] as nat, b[0] as nat, b[1] as nat, b[2] as nat,
                    b[3] as nat);
    SameByte(a[0], b[0]);
    SameByte(a[1], b[1]);
    SameByte(a[2], b[2]);
    SameByte(a[3], b[3]);
  }

  lemma FieldBound(a: seq<byte>)
    requires |a| == 4
    ensures FromBigEndian(a) <= 0xFFFF_FFFF
  {
    DigitsBound(a[0] as nat, a[1] as nat, a[2] as nat, a[3] as nat);
  }

  lemma DigitsBound(a: nat, b: nat, c: nat, d: nat)
    requires a < 256 && b < 256 && c < 256 && d < 256
    ensures FromDigits(a, b, c, d) <= 0xFFFF_FFFF
  {
  }

  lemma AllOnesField()
    ensures FromBigEndian([0xFF, 0xFF, 0xFF, 0xFF]) == 0xFFFF_FFFF
  {
  }

  /** Every size up to 2^32 - 1, including zero through the all-ones sentinel, is read back as written. */
  lemma LengthRoundTrip(dataSize: nat)
    requires dataSize <= 0xFFFF_FFFF
    ensures ReadLength(LengthField(dataSize)) == dataSize
  {
    hide BigEndian, FromBigEndian;
    AllOnesField();
    if dataSize != 0 {
      BigEndianRoundTrip(dataSize - 1);
    }
  }

  /** Every length field is the one its size is written with: different fields mean different sizes. */
  lemma LengthFieldIsCanonical(field: seq<byte>)
    requires |field| == 4
    ensures ReadLength(field) <= 0xFFFF_FFFF && LengthField(ReadLength(field)) == field
  {
    hide BigEndian, FromBigEndian;
    AllOnesField();
    FieldBound(field);
    if ReadLength(field) == 0 {
      FieldIsUnique(field, [0xFF, 0xFF, 0xFF, 0xFF]);
    } else {
      BigEndianRoundTrip(FromBigEndian(field));
      FieldIsUnique(field, BigEndian(FromBigEndian(field)));
    }
  }

  // ---------------------------------------------------------------- packet round trip

  lemma HeaderFields(packetType: PacketType, destination: bv16, count: bv16, dataSize: nat)
    requires destination <= 2047 && dataSize <= 0xFFFF_FFFF
    ensures var header := Header(packetType, destination, count, dataSize);
            && ReadLength(header[4..8]) == dataSize
            && ReadType(header[0]) == TypeCode(packetType)
            && header[0] & 0x08 == (if packetType.Telecommand? then 0x08 else 0x00)
            && ReadDestination(header[0], header[1]) == destination
  {
    hide IdHigh, ReadType, ReadDestination, LengthField, ReadLength, Low, SequenceHigh, TypeCode;
    var header := Header(packetType, destination, count, dataSize);
    assert header[4..8] == LengthField(dataSize);
    LengthRoundTrip(dataSize);
    TypeCodeIsBit(packetType);
    BuiltTypeBit(packetType, destination, count, dataSize);
    IdFieldsRoundTrip(TypeCode(packetType), destination, header[0], header[1], ReadDestination(header[0], header[1]));
  }

  lemma PacketParts(packetType: PacketType, source: bv16, destination: bv16, count: bv16, data: seq<byte>)
    ensures var packet := Packet(packetType, source, destination, count, data);
            var header := Header(packetType, destination, count, |data|);
            var end := HEADER_SIZE + |data|;
            && packet[..HEADER_SIZE] == header && packet[4..8] == header[4..8]
            && packet[0] == header[0] && packet[1] == header[1] && packet[2] == header[2] && packet[3] == header[3]
            && packet[HEADER_SIZE..end] == data
            && packet[..end] == header + data
            && packet[end] == High(source) && packet[end + 1] == Low(source)
            && packet[end + 2] == High(CheckValue(header + data)) && packet[end + 3] == Low(CheckValue(header + data))
  {
    hide Header, CheckValue, High, Low;
    var packet := Packet(packetType, source, destination, count, data);
    var header := Header(packetType, destination, count, |data|);
    var checked := header + data;
    assert packet == checked + (WordBytes(source) + WordBytes(CheckValue(checked)));
    assert packet[..HEADER_SIZE] == checked[..HEADER_SIZE] == header;
    assert packet[4..8] == packet[..HEADER_SIZE][4..8];
  }

  /** Depacketizing a built packet returns exactly what it was built from. */
  lemma PacketRoundTrip(packetType: PacketType, source: bv16, destination: bv16, count: bv16, data: seq<byte>)
    requires destination <= 2047 && |data| <= 0xFFFF_FFFE
    ensures var packet := Packet(packetType, source, destination, count, data);
            && Judge(packetType, packet) == Accepted(source, destination, 8, |data|)
            && packet[8..8 + |data|] == data
  {
    hide Packet, Header, CheckValue, High, Low, Word, ReadLength, ReadType, ReadDestination;
    var packet := Packet(packetType, source, destination, count, data);
    var header := Header(packetType, destination, count, |data|);
    PacketParts(packetType, source, destination, count, data);
    HeaderFields(packetType, destination, count, |data|);
    WordRoundTrip(source, 0, 0);
    WordRoundTrip(CheckValue(header + data), 0, 0);
  }

  /** The sequence count of a built packet is the counter it was built with. */
  lemma PacketCount(packetType: PacketType, source: bv16, destination: bv16, count: bv16, data: seq<byte>)
    requires count <= MAX_SEQUENCE_COUNT
    ensures var packet := Packet(packetType, source, destination, count, data);
            ReadCount(packet[2], packet[3]) == count
  {
    hide Packet, IdHigh, SequenceHigh, LengthField, CheckValue, High, Low, ReadCount, TypeCode;
    var packet := Packet(packetType, source, destination, count, data);
    PacketParts(packetType, source, destination, count, data);
    SequenceRoundTrip(count, packet[2], packet[3], ReadCount(packet[2], packet[3]));
  }

  // ---------------------------------------------------------------- the packet on the wire

  lemma IdBits(typeCode: byte, destination: bv16, high: byte, low: byte)
    requires typeCode <= 1 && destination <= 2047
    requires high == IdHigh(typeCode, destination) && low == Low(destination)
    ensures high & 0x07 == 0 && high & 0x10 == 0x10
    ensures high & 0x08 == typeCode << 3
    ensures ((high >> 5) as bv16 << 8) | low as bv16 == destination
  {
  }

  lemma SequenceBits(count: bv16, high: byte, low: byte)
    requires count <= 16383 && high == SequenceHigh(count) && low == Low(count)
    ensures high & 0x03 == 0x03
    ensures ((high >> 2) as bv16 << 8) | low as bv16 == count
  {
  }

  lemma TypeBit(packetType: PacketType)
    ensures TypeCode(packetType) <= 1
    ensures TypeCode(packetType) << 3 == if packetType.Telecommand? then 0x08 else 0x00
  {
  }

  /** The first four bytes: version 0, type, flag and destination, then both sequence flags and the count. */
  lemma HeaderOnTheWire(packetType: PacketType, destination: bv16, count: bv16, dataSize: nat)
    requires destination <= 2047 && count <= 16383
    ensures var header := Header(packetType, destination, count, dataSize);
            && header[0] & 0x07 == 0 && header[0] & 0x10 == 0x10
            && header[0] & 0x08 == (if packetType.Telecommand? then 0x08 else 0x00)
            && ((header[0] >> 5) as bv16 << 8) | header[1] as bv16 == destination
            && header[2] & 0x03 == 0x03
            && ((header[2] >> 2) as bv16 << 8) | header[3] as bv16 == count
  {
    hide IdHigh, SequenceHigh, LengthField, Low, TypeCode;
    var header := Header(packetType, destination, count, dataSize);
    TypeBit(packetType);
    IdBits(TypeCode(packetType), destination, header[0], header[1]);
    SequenceBits(count, header[2], header[3]);
  }

  /** The length field holds the size minus one as a big-endian number, and all ones for size zero. */
  lemma LengthOnTheWire(dataSize: nat)
    requires dataSize <= 0xFFFF_FFFE
    ensures var field := LengthField(dataSize);
            field[0] as nat * 0x100_0000 + field[1] as nat * 0x1_0000 + field[2] as nat * 256 + field[3] as nat
            == if dataSize == 0 then 0xFFFF_FFFF else dataSize - 1
  {
    hide LengthField;
    LengthValue(dataSize);
  }

  lemma LengthValue(dataSize: nat)
    requires dataSize <= 0xFFFF_FFFE
    ensures FromBigEndian(LengthField(dataSize)) == if dataSize == 0 then 0xFFFF_FFFF else dataSize - 1
  {
    hide BigEndian, FromBigEndian;
    if dataSize == 0 {
      AllOnesField();
    } else {
      BigEndianRoundTrip(dataSize - 1);
    }
  }

  /** The first eight bytes of a built packet and the data as bits and numbers, most significant byte first. */
  lemma PacketOnTheWire(packetType: PacketType, source: bv16, destination: bv16, count: bv16, data: seq<byte>)
    requires destination <= 2047 && count <= 16383 && |data| <= 0xFFFF_FFFE
    ensures var packet := Packet(packetType, source, destination, count, data);
            && |packet| == |data| + 12 && packet[8..8 + |data|] == data
            && packet[0] & 0x07 == 0 && packet[0] & 0x10 == 0x10
            && packet[0] & 0x08 == (if packetType.Telecommand? then 0x08 else 0x00)
            && ((packet[0] >> 5) as bv16 << 8) | packet[1] as bv16 == destination
            && packet[2] & 0x03 == 0x03
            && ((packet[2] >> 2) as bv16 << 8) | packet[3] as bv16 == count
            && packet[4] as nat * 0x100_0000 + packet[5] as nat * 0x1_0000 + packet[6] as nat * 256 + packet[7] as nat
               == if data == [] then 0xFFFF_FFFF else |data| - 1
  {
    hide Packet, Header, LengthField, CheckValue, High, Low;
    var packet := Packet(packetType, source, destination, count, data);
    PacketParts(packetType, source, destination, count, data);
    HeaderOnTheWire(packetType, destination, count, |data|);
    HeaderLength(packetType, destination, count, |data|);
    LengthOnTheWire(|data|);
    FourBytes(packet, LengthField(|data|));
  }

  /**
   * The last four bytes of a built packet: the sender, and the zero-initialised register over everything in
   * front of it with the first two bytes inverted.
   */
  lemma TrailerOnTheWire(packetType: PacketType, source: bv16, destination: bv16, count: bv16, data: seq<byte>)
    ensures var packet, end := Packet(packetType, source, destination, count, data), 8 + |data|;
            && (packet[end] as bv16 << 8) | packet[end + 1] as bv16 == source
            && (packet[end + 2] as bv16 << 8) | packet[end + 3] as bv16
               == Crc16.Crc(0, [packet[0] ^ 0xFF, packet[1] ^ 0xFF] + packet[2..end])
  {
    hide Packet, Header, CheckValue, High, Low, Word, Crc16.Crc;
    var packet, end := Packet(packetType, source, destination, count, data), 8 + |data|;
    PacketParts(packetType, source, destination, count, data);
    WordRoundTrip(source, 0, 0);
    WordRoundTrip(CheckValue(packet[..end]), 0, 0);
    WordInBits(packet[end], packet[end + 1]);
    WordInBits(packet[end + 2], packet[end + 3]);
    CheckedOnTheWire(packet, end);
  }

  lemma CheckedOnTheWire(packet: seq<byte>, end: nat)
    requires 2 <= end <= |packet|
    ensures CheckValue(packet[..end]) == Crc16.Crc(0, [packet[0] ^ 0xFF, packet[1] ^ 0xFF] + packet[2..end])
  {
    hide Crc16.Crc;
    CheckValueOnTheWire(packet[..end]);
    assert packet[..end][2..] == packet[2..end];
  }

  lemma HeaderLength(packetType: PacketType, destination: bv16, count: bv16, dataSize: nat)
    ensures Header(packetType, destination, count, dataSize)[4..8] == LengthField(dataSize)
  {
    hide IdHigh, SequenceHigh, LengthField, Low, TypeCode;
  }

  lemma FourBytes(packet: seq<byte>, field: seq<byte>)
    requires |packet| >= 8 && |field| == 4 && packet[4..8] == field
    ensures packet[4] == field[0] && packet[5] == field[1] && packet[6] == field[2] && packet[7] == field[3]
  {
    assert packet[4..8][0] == packet[4] && packet[4..8][1] == packet[5];
    assert packet[4..8][2] == packet[6] && packet[4..8][3] == packet[7];
  }

  lemma CheckValueOnTheWire(checked: seq<byte>)
    requires |checked| >= 2
    ensures CheckValue(checked) == Crc16.Crc(0, [checked[0] ^ 0xFF, checked[1] ^ 0xFF] + checked[2..])
  {
    hide Crc16.Crc;
    Crc16.CheckValueFromZero(checked);
  }

  lemma ReadBits(high: byte, low: byte)
    ensures ReadDestination(high, low) == ((high >> 5) as bv16 << 8) | low as bv16
  {
  }

  lemma TypeTest(packetType: PacketType, high: byte)
    ensures IsOfType(packetType, high) <==> high & 0x08 == if packetType.Telecommand? then 0x08 else 0x00
  {
  }

  lemma ReadLengthDigits(packet: seq<byte>)
    requires |packet| >= 8
    ensures ReadLength(packet[4..8])
         == var value := packet[4] as nat * 0x100_0000 + packet[5] as nat * 0x1_0000 + packet[6] as nat * 256
                         + packet[7] as nat;
            if value == 0xFFFF_FFFF then 0 else value + 1
  {
    FourBytes(packet, packet[4..8]);
  }

  /** The size a length field stands for, read as a big-endian number. */
  lemma SizeOnTheWire(packetType: PacketType, packet: seq<byte>)
    ensures Judge(packetType, packet) == Rejected(4) <==> |packet| < 12
    ensures |packet| >= 12 ==>
              var value := packet[4] as nat * 0x100_0000 + packet[5] as nat * 0x1_0000 + packet[6] as nat * 256
                           + packet[7] as nat;
              var size := if value == 0xFFFF_FFFF then 0 else value + 1;
              && (Judge(packetType, packet) == Rejected(3) <==> |packet| != size + 12)
              && (Judge(packetType, packet).Accepted? ==>
                    Judge(packetType, packet).dataSize == size && Judge(packetType, packet).dataOffset == 8)
  {
    hide ReadLength, HasCheckValue, IsOfType, ReadDestination, Word;
    if |packet| >= 12 { ReadLengthDigits(packet); }
  }

  lemma CheckDecides(packetType: PacketType, packet: seq<byte>)
    requires Judge(packetType, packet) != Rejected(4) && Judge(packetType, packet) != Rejected(3)
    ensures |packet| >= 12
    ensures var end := |packet| - 4;
            Judge(packetType, packet) == Rejected(1)
            <==> Word(packet[end + 2], packet[end + 3]) != CheckValue(packet[..end])
  {
    hide ReadLength, CheckValue, IsOfType, ReadDestination, Word;
  }

  /** A buffer of the right length is rejected for its check value exactly when that is not the register's value. */
  lemma CheckOnTheWire(packetType: PacketType, packet: seq<byte>)
    requires Judge(packetType, packet) != Rejected(4) && Judge(packetType, packet) != Rejected(3)
    ensures |packet| >= 12
    ensures var end := |packet| - 4;
            (Judge(packetType, packet) == Rejected(1)
             <==> (packet[end + 2] as bv16 << 8) | packet[end + 3] as bv16
                  != Crc16.Crc(0, [packet[0] ^ 0xFF, packet[1] ^ 0xFF] + packet[2..end]))
  {
    hide Judge, CheckValue, Word, Crc16.Crc;
    CheckDecides(packetType, packet);
    var end := |packet| - 4;
    CheckedOnTheWire(packet, end);
    WordInBits(packet[end + 2], packet[end + 3]);
  }

  /** A buffer that passes these tests is rejected for its type exactly when its type bit is not the expected one. */
  lemma TypeOnTheWire(packetType: PacketType, packet: seq<byte>)
    requires Judge(packetType, packet) != Rejected(4) && Judge(packetType, packet) != Rejected(3)
    requires Judge(packetType, packet) != Rejected(1)
    ensures |packet| >= 12
    ensures Judge(packetType, packet)
         == if packet[0] & 0x08 != (if packetType.Telecommand? then 0x08 else 0x00) then Rejected(2)
            else Accepted(Word(packet[|packet| - 4], packet[|packet| - 3]), ReadDestination(packet[0], packet[1]),
                          8, |packet| - 12)
  {
    hide ReadLength, HasCheckValue, IsOfType, ReadDestination, Word;
    TypeTest(packetType, packet[0]);
  }

  lemma AcceptedFields(packetType: PacketType, packet: seq<byte>)
    requires Judge(packetType, packet).Accepted?
    ensures |packet| >= 12
    ensures Judge(packetType, packet)
         == Accepted(Word(packet[|packet| - 4], packet[|packet| - 3]), ReadDestination(packet[0], packet[1]), 8,
                     |packet| - 12)
  {
    hide ReadLength, HasCheckValue, IsOfType, ReadDestination, Word;
  }

  /** The fields read from an accepted buffer, whatever its unchecked bits. */
  lemma FieldsOnTheWire(packetType: PacketType, packet: seq<byte>)
    requires Judge(packetType, packet).Accepted?
    ensures var verdict, end := Judge(packetType, packet), |packet| - 4;
            && |packet| >= 12 && verdict.dataOffset == 8 && verdict.dataSize == |packet| - 12
            && verdict.source == (packet[end] as bv16 << 8) | packet[end + 1] as bv16
            && verdict.destination == ((packet[0] >> 5) as bv16 << 8) | packet[1] as bv16
  {
    hide Judge, ReadDestination, Word;
    AcceptedFields(packetType, packet);
    var end := |packet| - 4;
    WordInBits(packet[end], packet[end + 1]);
    ReadBits(packet[0], packet[1]);
  }

  /** A packet of one type is rejected for its type by a receiver that expects the other. */
  lemma OtherTypeIsRejected(sent: PacketType, expected: PacketType, source: bv16, destination: bv16, count: bv16,
                            data: seq<byte>)
    requires sent != expected && destination <= 2047 && |data| <= 0xFFFF_FFFE
    ensures Judge(expected, Packet(sent, source, destination, count, data)) == Rejected(2)
  {
    hide Packet, Judge;
    var packet := Packet(sent, source, destination, count, data);
    PacketRoundTrip(sent, source, destination, count, data);
    SameButType(sent, expected, packet);
    BuiltTypeBit(sent, destination, count, |data|);
    PacketParts(sent, source, destination, count, data);
  }

  lemma BuiltTypeBit(packetType: PacketType, destination: bv16, count: bv16, dataSize: nat)
    requires destination <= 2047
    ensures Header(packetType, destination, count, dataSize)[0] & 0x08
         == if packetType.Telecommand? then 0x08 else 0x00
  {
    hide IdHigh, SequenceHigh, LengthField, Low, TypeCode;
    TypeBit(packetType);
    IdBits(TypeCode(packetType), destination, IdHigh(TypeCode(packetType), destination), Low(destination));
  }

  lemma SameButType(sent: PacketType, expected: PacketType, packet: seq<byte>)
    requires Judge(sent, packet).Accepted?
    ensures packet != []
    ensures Judge(expected, packet).Accepted? || Judge(expected, packet) == Rejected(2)
    ensures Judge(expected, packet).Accepted?
       <==> packet[0] & 0x08 == if expected.Telecommand? then 0x08 else 0x00
  {
    hide ReadLength, HasCheckValue, IsOfType, ReadDestination, Word;
    TypeTest(sent, packet[0]);
    TypeTest(expected, packet[0]);
  }

  // ---------------------------------------------------------------- canonical re-encoding

  /** The bits a sender fixes but a receiver does not check: zero version and secondary header flag, ... */
  predicate HasFixedId(idHigh: byte) {
    idHigh & 0x07 == 0 && idHigh & 0x10 != 0
  }

  /** ... and both sequence flags. */
  predicate HasSequenceFlags(sequenceHigh: byte) {
    sequenceHigh & 0x03 == 0x03
  }

  lemma IdIsCanonical(high: byte, low: byte, typeCode: byte, destination: bv16)
    requires typeCode == ReadType(high) && destination == ReadDestination(high, low)
    ensures Low(destination) == low && destination <= MAX_APID
    ensures IdHigh(typeCode, destination) == high <==> HasFixedId(high)
  {
  }

  lemma SequenceIsCanonical(high: byte, low: byte, count: bv16)
    requires count == ReadCount(high, low)
    ensures Low(count) == low && count <= MAX_SEQUENCE_COUNT
    ensures SequenceHigh(count) == high <==> HasSequenceFlags(high)
  {
  }

  lemma HeaderIsCanonical(packetType: PacketType, packet: seq<byte>)
    requires HEADER_SIZE <= |packet| && IsOfType(packetType, packet[0])
    ensures var destination, count := ReadDestination(packet[0], packet[1]), ReadCount(packet[2], packet[3]);
            && destination <= MAX_APID && count <= MAX_SEQUENCE_COUNT
            && (Header(packetType, destination, count, ReadLength(packet[4..8])) == packet[..HEADER_SIZE]
                <==> HasFixedId(packet[0]) && HasSequenceFlags(packet[2]))
  {
    hide IdHigh, SequenceHigh, ReadType, ReadDestination, ReadCount, LengthField, ReadLength, Low, TypeCode,
         HasFixedId, HasSequenceFlags;
    var destination, count := ReadDestination(packet[0], packet[1]), ReadCount(packet[2], packet[3]);
    var header := Header(packetType, destination, count, ReadLength(packet[4..8]));
    IdIsCanonical(packet[0], packet[1], TypeCode(packetType), destination);
    SequenceIsCanonical(packet[2], packet[3], count);
    LengthFieldIsCanonical(packet[4..8]);
    assert header[4..8] == packet[4..8];
    HeaderIs(header, packet);
  }

  lemma HeaderIs(header: seq<byte>, packet: seq<byte>)
    requires |header| == HEADER_SIZE <= |packet|
    requires header[1] == packet[1] && header[3] == packet[3] && header[4..8] == packet[4..8]
    ensures header == packet[..HEADER_SIZE] <==> header[0] == packet[0] && header[2] == packet[2]
  {
    assert forall i :: 4 <= i < 8 ==> header[i] == header[4..8][i - 4] && packet[i] == packet[4..8][i - 4];
  }

  lemma LastFour(packet: seq<byte>, end: nat)
    requires |packet| == end + 4
    ensures packet == packet[..end] + [packet[end], packet[end + 1]] + [packet[end + 2], packet[end + 3]]
  {
  }

  /**
   * An accepted buffer is the encoding of its own fields exactly when the bits nobody checks have their
   * sent values.
   */
  lemma CanonicalReencoding(packetType: PacketType, packet: seq<byte>)
    requires Judge(packetType, packet).Accepted?
    ensures var verdict, count := Judge(packetType, packet), ReadCount(packet[2], packet[3]);
            var data := packet[HEADER_SIZE..HEADER_SIZE + verdict.dataSize];
            && verdict.destination <= MAX_APID && count <= MAX_SEQUENCE_COUNT
            && (Packet(packetType, verdict.source, verdict.destination, count, data) == packet
                <==> HasFixedId(packet[0]) && HasSequenceFlags(packet[2]))
  {
    hide IdHigh, SequenceHigh, ReadType, ReadDestination, ReadCount, ReadLength, CheckValue,
         High, Low, Word, TypeCode, Header, HasFixedId, HasSequenceFlags;
    var verdict, count := Judge(packetType, packet), ReadCount(packet[2], packet[3]);
    var end := HEADER_SIZE + verdict.dataSize;
    var data := packet[HEADER_SIZE..end];
    var header := Header(packetType, verdict.destination, count, verdict.dataSize);
    HeaderIsCanonical(packetType, packet);
    if header == packet[..HEADER_SIZE] {
      assert packet[..end] == header + data;
      WordRoundTrip(0, packet[end], packet[end + 1]);
      WordRoundTrip(0, packet[end + 2], packet[end + 3]);
      LastFour(packet, end);
    } else {
      PacketParts(packetType, verdict.source, verdict.destination, count, data);
    }
  }

  // ---------------------------------------------------------------- error bursts

  lemma RawWordXor(a: byte, b: byte, c: byte, d: byte, e: byte, f: byte, ab: bv16, cd: bv16, sum: bv16)
    requires e == Flip(a, c) && f == Flip(b, d)
    requires ab == Word(a, b) && cd == Word(c, d) && sum == Crc16.Plus(ab, cd)
    ensures Word(e, f) == sum
  {
  }

  lemma PlusCancels(a: bv16, b: bv16, c: bv16, ab: bv16, ac: bv16)
    requires ab == Crc16.Plus(a, b) && ac == Crc16.Plus(a, c)
    ensures ab == ac <==> b == c
  {
  }

  lemma WordIsZero(a: byte, b: byte)
    ensures Word(a, b) == 0 <==> a == 0 && b == 0
  {
  }

  lemma PlusZero(a: bv16)
    ensures Crc16.Plus(a, 0) == a
  {
  }

  lemma XorWithZero(a: byte, b: byte)
    ensures Flip(a, b) == a <==> b == 0
  {
  }

  lemma XorSlice(a: seq<byte>, b: seq<byte>, from: nat, to: nat)
    requires |a| == |b| && from <= to <= |a|
    ensures Xor(a, b)[from..to] == Xor(a[from..to], b[from..to])
  {
    hide Flip;
  }

  lemma XorIsSame(a: seq<byte>, b: seq<byte>)
    requires |a| == |b|
    ensures Xor(a, b) == a <==> Crc16.IsZero(b)
  {
    hide Flip;
    forall i | 0 <= i < |a| ensures Xor(a, b)[i] == a[i] <==> b[i] == 0 {
      XorWithZero(a[i], b[i]);
    }
    if Xor(a, b) == a {
      assert forall i :: 0 <= i < |a| ==> Xor(a, b)[i] == a[i];
    }
  }

  /** The check bytes of a corrupted packet still match exactly when their error is the check value of the error. */
  lemma CorruptedCheck(checked: seq<byte>, high: byte, low: byte, error: seq<byte>, errorHigh: byte, errorLow: byte)
    requires |error| == |checked| && Word(high, low) == CheckValue(checked)
    ensures Word(Flip(high, errorHigh), Flip(low, errorLow)) == CheckValue(Xor(checked, error))
       <==> Word(errorHigh, errorLow) == Crc16.Crc(0, error)
  {
    hide Word, Flip, Crc16.Plus, Crc16.Crc;
    var check, own, inCheck := CheckValue(checked), Crc16.Crc(0, error), Word(errorHigh, errorLow);
    RawWordXor(high, low, errorHigh, errorLow, Flip(high, errorHigh), Flip(low, errorLow), check, inCheck,
               Crc16.Plus(check, inCheck));
    PlusZero(Crc16.INITIAL_VALUE);
    Crc16.CrcIsLinear(Crc16.INITIAL_VALUE, 0, checked, error);
    PlusCancels(check, inCheck, own, Crc16.Plus(check, inCheck), Crc16.Plus(check, own));
  }

  /** Any change to the length field changes the size, so the packet no longer has its length. */
  lemma CorruptedLength(packetType: PacketType, packet: seq<byte>, error: seq<byte>)
    requires Judge(packetType, packet).Accepted? && |error| == |packet|
    requires !Crc16.IsZero(error[4..8])
    ensures Judge(packetType, Xor(packet, error)) == Rejected(INCORRECT_PACKET_SIZE)
  {
    hide Judge, ReadLength, LengthField, HasCheckValue, IsOfType, Xor, Crc16.IsZero;
    var received := Xor(packet, error);
    JudgeAccepts(packetType, packet);
    JudgeAccepts(packetType, received);
    XorSlice(packet, error, 4, 8);
    XorIsSame(packet[4..8], error[4..8]);
    LengthFieldIsCanonical(packet[4..8]);
    LengthFieldIsCanonical(received[4..8]);
  }

  lemma CorruptedCheckValue(packet: seq<byte>, error: seq<byte>, end: nat)
    requires |error| == |packet| == end + 4 && HasCheckValue(packet, end)
    ensures HasCheckValue(Xor(packet, error), end)
       <==> Word(error[end + 2], error[end + 3]) == Crc16.Crc(0, error[..end])
  {
    hide Word, CheckValue, Flip, Crc16.Crc;
    var received := Xor(packet, error);
    XorSlice(packet, error, 0, end);
    assert packet[0..end] == packet[..end] && error[0..end] == error[..end] && received[0..end] == received[..end];
    CorruptedCheck(packet[..end], packet[end + 2], packet[end + 3], error[..end], error[end + 2], error[end + 3]);
  }

  /** With the length field intact, a corrupted packet is accepted when its check value and type still match. */
  lemma CorruptedElsewhere(packetType: PacketType, packet: seq<byte>, error: seq<byte>)
    requires Judge(packetType, packet).Accepted? && |error| == |packet|
    requires Crc16.IsZero(error[4..8])
    ensures |packet| >= OVERHEAD
    ensures var end := |packet| - 4;
            (Judge(packetType, Xor(packet, error)).Accepted?
             <==> Word(error[end + 2], error[end + 3]) == Crc16.Crc(0, error[..end])
                  && IsOfType(packetType, Flip(packet[0], error[0])))
  {
    hide Judge, ReadLength, HasCheckValue, IsOfType, Word, Flip, Crc16.IsZero, Crc16.Crc;
    JudgeAccepts(packetType, packet);
    JudgeAccepts(packetType, Xor(packet, error));
    XorSlice(packet, error, 4, 8);
    XorIsSame(packet[4..8], error[4..8]);
    CorruptedCheckValue(packet, error, |packet| - 4);
  }

  lemma ZeroTail(error: seq<byte>, end: nat)
    requires |error| == end + 4
    ensures Crc16.IsZero(error[end + 2..]) <==> error[end + 2] == 0 && error[end + 3] == 0
  {
    var tail := error[end + 2..];
    assert tail[0] == error[end + 2] && tail[1] == error[end + 3];
  }

  lemma ZeroSlice(error: seq<byte>, end: nat)
    requires 8 <= end <= |error| && Crc16.IsZero(error[..end])
    ensures Crc16.IsZero(error[4..8]) && error[0] == 0
  {
    assert forall i :: 0 <= i < 4 ==> error[4..8][i] == error[..end][i + 4];
    assert error[..end][0] == error[0];
  }

  lemma BurstIsJudged(packetType: PacketType, packet: seq<byte>, error: seq<byte>, first: int)
    requires Judge(packetType, packet).Accepted?
    requires |error| == |packet| && Crc16.IsBurst(Crc16.Bits(error), first)
    ensures var end := HEADER_SIZE + Judge(packetType, packet).dataSize;
            (Judge(packetType, Xor(packet, error)).Accepted?
             <==> Crc16.IsZero(error[..end]) && Crc16.IsZero(error[end + SENDER_PID_SIZE..]))
  {
    hide Judge, Word, ReadLength, IsOfType, HasCheckValue, Xor, Flip, Crc16.IsZero, Crc16.Crc, Crc16.Bits,
         Crc16.IsBurst;
    var end := HEADER_SIZE + Judge(packetType, packet).dataSize;
    JudgeAccepts(packetType, packet);
    if !Crc16.IsZero(error[4..8]) {
      CorruptedLength(packetType, packet, error);
      if Crc16.IsZero(error[..end]) { ZeroSlice(error, end); }
    } else {
      CorruptedElsewhere(packetType, packet, error);
      WordIsZero(error[end + 2], error[end + 3]);
      ZeroTail(error, end);
      if Crc16.IsZero(error[..end]) {
        ZeroSlice(error, end);
        Crc16.CrcOfZero(error[..end]);
        XorWithZero(packet[0], error[0]);
      } else {
        Crc16.BurstInPrefix(error, first, end);
      }
    }
  }

  /**
   * An error burst of at most sixteen consecutive bits in an accepted packet goes unnoticed exactly when
   * it lies inside the two sender bytes, which the check value does not cover.
   */
  lemma BurstDetection(packetType: PacketType, packet: seq<byte>, error: seq<byte>, first: int)
    requires Judge(packetType, packet).Accepted?
    requires |error| == |packet|
    requires forall i :: 0 <= i < |Crc16.Bits(error)| && Crc16.Bits(error)[i] ==> first <= i < first + 16
    ensures var end := HEADER_SIZE + Judge(packetType, packet).dataSize;
            (Judge(packetType, Xor(packet, error)).Accepted?
             <==> Crc16.IsZero(error[..end]) && Crc16.IsZero(error[end + SENDER_PID_SIZE..]))
  {
    Crc16.BurstWithin(Crc16.Bits(error), first);
    hide Judge, Xor, Crc16.IsZero, Crc16.Bits, Crc16.IsBurst;
    BurstIsJudged(packetType, packet, error, first);
  }

  /** The same for a packet as it was built, with every size, sender, destination and count. */
  lemma BuiltPacketBurst(packetType: PacketType, source: bv16, destination: bv16, count: bv16, data: seq<byte>,
                         error: seq<byte>, first: int)
    requires destination <= 2047 && |data| <= 0xFFFF_FFFE
    requires |error| == |data| + 12
    requires forall i :: 0 <= i < |Crc16.Bits(error)| && Crc16.Bits(error)[i] ==> first <= i < first + 16
    ensures var packet, end := Packet(packetType, source, destination, count, data), HEADER_SIZE + |data|;
            (Judge(packetType, Xor(packet, error)).Accepted?
             <==> Crc16.IsZero(error[..end]) && Crc16.IsZero(error[end + SENDER_PID_SIZE..]))
  {
    hide Judge, Crc16.IsZero, Crc16.Bits, Crc16.IsBurst;
    PacketRoundTrip(packetType, source, destination, count, data);
    BurstDetection(packetType, Packet(packetType, source, destination, count, data), error, first);
  }
}
