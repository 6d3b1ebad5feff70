/** Sizes, limits and results common to the packet formats. */
module SpacePacket {
  import opened Bytes

  const THIN_HEADER_SIZE := 4
  const CCSDS_HEADER_SIZE := 6
  const HEADER_SIZE := 8
  const ERROR_CONTROL_SIZE := 2
  const SENDER_PID_SIZE := 2

  const CCSDS_MAX_PACKET_DATA_SIZE := 65536
  const MAX_PACKET_DATA_SIZE := 4294967295

  const MAX_APID: bv16 := 2047
  const MAX_SEQUENCE_COUNT: bv16 := 16383

  datatype PacketType = Telemetry | Telecommand

  function TypeCode(packetType: PacketType): byte {
    if packetType == Telemetry then 0 else 1
  }

  lemma TypeCodeIsBit(packetType: PacketType)
    ensures TypeCode(packetType) <= 1
  {
  }

  /** The length field of the strict CCSDS and thin formats: the size minus one, cut off to 16 bits; size 0 wraps. */
  function ShortLengthField(dataSize: nat): (bytes: seq<byte>)
    ensures |bytes| == 2
  {
    [((dataSize - 1) / 256 % 256) as byte, ((dataSize - 1) % 256) as byte]
  }

  const INCORRECT_CHECKSUM := 1
  const INCORRECT_PACKET_TYPE := 2
  const INCORRECT_PACKET_SIZE := 3
  const PACKET_TOO_SMALL := 4

  /**
   * What a depacketizer decides. On rejection `errorCode` is the code it stores, or 0 when it stores none;
   * on acceptance `source` is 0 for the formats that leave the caller's zero in place.
   */
  datatype Verdict =
    | Accepted(source: bv16, destination: bv16, dataOffset: nat, dataSize: nat)
    | Rejected(errorCode: nat)

  /** The per-bus state of a packetizer. */
  class Packetizer {
    var packetSequenceCount: bv16

    constructor ()
      ensures packetSequenceCount == 0
    {
      packetSequenceCount := 0;
    }

    /** Counts one packet; the counter wraps to zero after 2^14 - 1. */
    method CountPacket()
      requires packetSequenceCount <= MAX_SEQUENCE_COUNT
      modifies this
      ensures packetSequenceCount == NextCount(old(packetSequenceCount))
    {
      packetSequenceCount := packetSequenceCount + 1;
      if packetSequenceCount > MAX_SEQUENCE_COUNT {
        packetSequenceCount := 0;
      }
    }
  }

  function NextCount(count: bv16): (next: bv16)
    ensures count <= MAX_SEQUENCE_COUNT ==> next <= MAX_SEQUENCE_COUNT
  {
    if count >= MAX_SEQUENCE_COUNT then 0 else count + 1
  }

  /** The counter after `packets` packets. */
  function CountAfter(packets: nat): (count: bv16)
    ensures count <= MAX_SEQUENCE_COUNT
  {
    if packets == 0 then 0 else NextCount(CountAfter(packets - 1))
  }

  lemma RawWordValue(high: byte, low: byte, word: bv16, value: nat)
    requires word == (high as bv16 << 8) | low as bv16 && value == word as nat
    ensures value == high as nat * 256 + low as nat
  {
  }

  /** The value of a word from its bytes. */
  lemma WordValue(high: byte, low: byte)
    ensures Word(high, low) as nat == high as nat * 256 + low as nat
  {
    RawWordValue(high, low, Word(high, low), Word(high, low) as nat);
  }

  lemma ByteSuccessor(b: byte, next: byte)
    requires b != 0xFF && next == b + 1
    ensures next as nat == b as nat + 1
  {
  }

  /** Counting up by one with a carry between two bytes. */
  predicate CountsUp(high: byte, low: byte, high': byte, low': byte) {
    && (low != 0xFF ==> high' == high && low' == low + 1)
    && (low == 0xFF ==> low' == 0 && high != 0xFF && high' == high + 1)
  }

  lemma WordSuccessor(word: bv16, next: bv16, high: byte, low: byte, high': byte, low': byte)
    requires word < 0xFFFF && next == word + 1
    requires high == High(word) && low == Low(word) && high' == High(next) && low' == Low(next)
    ensures CountsUp(high, low, high', low')
  {
  }

  lemma WordValueByBytes(word: bv16, value: nat)
    requires value == word as nat
    ensures value == High(word) as nat * 256 + Low(word) as nat
  {
    hide Word, High, Low;
    WordRoundTrip(word, 0, 0);
    WordValue(High(word), Low(word));
  }

  lemma SuccessorByBytes(high: byte, low: byte, high': byte, low': byte)
    requires CountsUp(high, low, high', low')
    ensures high' as nat * 256 + low' as nat == high as nat * 256 + low as nat + 1
  {
    if low == 0xFF {
      ByteSuccessor(high, high');
      assert low as nat == 255 && low' as nat == 0;
    } else {
      ByteSuccessor(low, low');
    }
  }

  lemma SuccessorValue(word: bv16, next: bv16, value: nat, value': nat)
    requires word < 0xFFFF && next == word + 1 && value == word as nat && value' == next as nat
    ensures value' == value + 1
  {
    hide High, Low, CountsUp;
    WordSuccessor(word, next, High(word), Low(word), High(next), Low(next));
    WordValueByBytes(word, value);
    WordValueByBytes(next, value');
    SuccessorByBytes(High(word), Low(word), High(next), Low(next));
  }

  lemma LastCountValue(count: bv16, value: nat)
    requires value == count as nat
    ensures value == 16383 <==> count == MAX_SEQUENCE_COUNT
  {
  }

  lemma CountBelowLast(count: bv16, next: bv16)
    requires count <= MAX_SEQUENCE_COUNT && count != MAX_SEQUENCE_COUNT && next == NextCount(count)
    ensures count < 0xFFFF && next == count + 1
  {
  }

  lemma LastCountWraps(next: bv16)
    requires next == NextCount(MAX_SEQUENCE_COUNT)
    ensures next as nat == 0
  {
  }

  lemma NextCountValue(count: bv16, next: bv16, value: nat, value': nat)
    requires count <= MAX_SEQUENCE_COUNT && next == NextCount(count)
    requires value == count as nat && value' == next as nat
    ensures value' == if value == 16383 then 0 else value + 1
  {
    hide NextCount;
    LastCountValue(count, value);
    if value == 16383 {
      LastCountWraps(next);
    } else {
      CountBelowLast(count, next);
      SuccessorValue(count, next, value, value');
    }
  }

  lemma Residue14(k: nat)
    ensures (k + 1) % 16384 == if k % 16384 == 16383 then 0 else k % 16384 + 1
  {
  }

  lemma CountIsNumbered(packets: nat, earlier: bv16, count: bv16, value: nat, value': nat)
    requires earlier <= MAX_SEQUENCE_COUNT && count == NextCount(earlier)
    requires value == earlier as nat && value' == count as nat && value == packets % 16384
    ensures value' == (packets + 1) % 16384
  {
    hide NextCount;
    NextCountValue(earlier, count, value, value');
    Residue14(packets);
  }

  lemma FirstCount(count: bv16)
    requires count == CountAfter(0)
    ensures count as nat == 0
  {
  }

  /** The counter numbers packets modulo 2^14. */
  lemma {:induction false} CountAfterValue(packets: nat)
    ensures CountAfter(packets) as nat == packets % 16384
  {
    hide NextCount;
    if packets == 0 {
      FirstCount(CountAfter(0));
    } else {
      var earlier, count := CountAfter(packets - 1), CountAfter(packets);
      CountAfterValue(packets - 1);
      CountIsNumbered(packets - 1, earlier, count, earlier as nat, count as nat);
    }
  }
}
