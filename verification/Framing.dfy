/**
 * What the byte-stuffing framer computes: the encoded frame of a packet, and the decoder as a
 * machine on bytes. Escaper.dfy proves the buffer-level code against these definitions.
 */
module Framing {
  import opened Bytes

  const START: byte := 0x00
  const STOP: byte := 0xFF
  const ESCAPE: byte := 0xFE

  // ---------------------------------------------------------------- encoding

  predicate IsSpecial(b: byte) {
    b == START || b == ESCAPE || b == STOP
  }

  function StuffByte(b: byte): seq<byte> {
    if IsSpecial(b) then [ESCAPE, b] else [b]
  }

  function Stuff(data: seq<byte>): seq<byte> {
    if data == [] then [] else StuffByte(data[0]) + Stuff(data[1..])
  }

  function Frame(data: seq<byte>): seq<byte> {
    [START] + Stuff(data) + [STOP]
  }

  /** How many bytes of the data have one of the three values 0x00, 0xFE and 0xFF. */
  ghost function Reserved(data: seq<byte>): nat {
    Occurrences(data, 0x00) + Occurrences(data, 0xFE) + Occurrences(data, 0xFF)
  }

  lemma ReservedFirst(data: seq<byte>)
    requires data != []
    ensures Reserved(data) == Reserved(data[1..]) + if data[0] in {0x00, 0xFE, 0xFF} then 1 else 0
  {
    OccurrencesFirst(data, 0x00);
    OccurrencesFirst(data, 0xFE);
    OccurrencesFirst(data, 0xFF);
  }

  lemma {:induction false} StuffLength(data: seq<byte>)
    ensures |Stuff(data)| == |data| + Occurrences(data, 0x00) + Occurrences(data, 0xFE) + Occurrences(data, 0xFF)
  {
    if data != [] {
      ReservedFirst(data);
      StuffLength(data[1..]);
    }
  }

  /** Data without one of the three reserved values is framed as it is. */
  lemma {:induction false} PlainFrame(data: seq<byte>)
    requires 0x00 !in data && 0xFE !in data && 0xFF !in data
    ensures Frame(data) == [0x00] + data + [0xFF]
  {
    PlainStuff(data);
  }

  lemma {:induction false} PlainStuff(data: seq<byte>)
    requires 0x00 !in data && 0xFE !in data && 0xFF !in data
    ensures Stuff(data) == data
  {
    if data != [] {
      assert data[0] in data;
      PlainStuff(data[1..]);
    }
  }

  /**
   * Byte i of the data stands in the frame behind the START byte, the earlier bytes and one more for each of
   * those that is 0x00, 0xFE or 0xFF. If it is one of these itself, 0xFE comes first.
   */
  lemma FrameBytes(data: seq<byte>, i: nat)
    requires i < |data|
    ensures var frame, earlier := Frame(data), data[..i];
            var at := 1 + i + Occurrences(earlier, 0x00) + Occurrences(earlier, 0xFE) + Occurrences(earlier, 0xFF);
            && |frame| == |data| + 2 + Occurrences(data, 0x00) + Occurrences(data, 0xFE) + Occurrences(data, 0xFF)
            && frame[0] == 0x00 && frame[|frame| - 1] == 0xFF
            && at + 1 < |frame|
            && (if data[i] == 0x00 || data[i] == 0xFE || data[i] == 0xFF
                then frame[at] == 0xFE && frame[at + 1] == data[i]
                else frame[at] == data[i])
  {
    StuffLength(data);
    StuffBytes(data, i);
  }

  lemma {:induction false} StuffBytes(data: seq<byte>, i: nat)
    requires i < |data|
    ensures var at := i + Reserved(data[..i]);
            if data[i] == 0x00 || data[i] == 0xFE || data[i] == 0xFF
            then at + 1 < |Stuff(data)| && Stuff(data)[at] == 0xFE && Stuff(data)[at + 1] == data[i]
            else at < |Stuff(data)| && Stuff(data)[at] == data[i]
  {
    hide Reserved;
    if i == 0 {
      NothingReserved(data[..0]);
    } else {
      ReservedFirst(data[..i]);
      assert data[..i][1..] == data[1..][..i - 1];
      StuffBytes(data[1..], i - 1);
      StuffByteSize(data[0]);
    }
  }

  lemma NothingReserved(data: seq<byte>)
    requires data == []
    ensures Reserved(data) == 0
  {
    OccurrencesFirst(data, 0x00);
    OccurrencesFirst(data, 0xFE);
    OccurrencesFirst(data, 0xFF);
  }

  lemma StuffByteSize(b: byte)
    ensures |StuffByte(b)| == if b in {0x00, 0xFE, 0xFF} then 2 else 1
  {
  }

  // ---------------------------------------------------------------- decoding

  datatype ParseState = Wait | DataByte | EscapeByte

  /** The parser state and the bytes decoded so far, which the code keeps in a buffer and an index. */
  datatype Decoder = Decoder(state: ParseState, prefix: seq<byte>)

  const IDLE: Decoder := Decoder(Wait, [])

  /** The decoder after some input, and the packets it handed over meanwhile. */
  datatype Decoded = Decoded(decoder: Decoder, packets: seq<seq<byte>>)

  /** A byte for the packet buffer; a full buffer gives the packet up. */
  function Store(capacity: nat, prefix: seq<byte>, b: byte): Decoder {
    if |prefix| >= capacity then IDLE else Decoder(DataByte, prefix + [b])
  }

  function Step(capacity: nat, decoder: Decoder, b: byte): Decoded {
    match decoder.state
    case Wait =>
      Decoded(if b == START then Decoder(DataByte, decoder.prefix) else decoder, [])
    case DataByte =>
      if b == STOP then Decoded(IDLE, [decoder.prefix])
      else if b == ESCAPE then Decoded(Decoder(EscapeByte, decoder.prefix), [])
      else if b == START then Decoded(Decoder(DataByte, []), [])
      else Decoded(Store(capacity, decoder.prefix, b), [])
    case EscapeByte =>
      Decoded(Store(capacity, decoder.prefix, b), [])
  }

  function Feed(capacity: nat, decoder: Decoder, bytes: seq<byte>): Decoded
    decreases |bytes|
  {
    if bytes == [] then Decoded(decoder, [])
    else
      var first := Step(capacity, decoder, bytes[0]);
      var rest := Feed(capacity, first.decoder, bytes[1..]);
      Decoded(rest.decoder, first.packets + rest.packets)
  }

  /** Feeding a ++ b is feeding a and then b: state and deliveries do not depend on the split. */
  lemma {:induction false} FeedAppend(capacity: nat, decoder: Decoder, a: seq<byte>, b: seq<byte>)
    ensures var first := Feed(capacity, decoder, a);
            var second := Feed(capacity, first.decoder, b);
            Feed(capacity, decoder, a + b) == Decoded(second.decoder, first.packets + second.packets)
    decreases |a|
  {
    hide Step;
    if a == [] {
      assert a + b == b;
      var second := Feed(capacity, decoder, b);
      assert [] + second.packets == second.packets;
    } else {
      var one := Step(capacity, decoder, a[0]);
      FeedAppend(capacity, one.decoder, a[1..], b);
      assert (a + b)[1..] == a[1..] + b;
      var first := Feed(capacity, one.decoder, a[1..]);
      var second := Feed(capacity, first.decoder, b);
      assert one.packets + (first.packets + second.packets) == (one.packets + first.packets) + second.packets;
    }
  }

  lemma FeedNothing(capacity: nat, decoder: Decoder)
    ensures Feed(capacity, decoder, []) == Decoded(decoder, [])
  {
  }

  lemma FeedFirst(capacity: nat, decoder: Decoder, b: byte, bytes: seq<byte>)
    ensures var first := Step(capacity, decoder, b);
            var rest := Feed(capacity, first.decoder, bytes);
            Feed(capacity, decoder, [b] + bytes) == Decoded(rest.decoder, first.packets + rest.packets)
  {
    hide Step;
    assert ([b] + bytes)[1..] == bytes;
  }

  lemma FeedLast(capacity: nat, decoder: Decoder, bytes: seq<byte>, b: byte)
    ensures var first := Feed(capacity, decoder, bytes);
            var last := Step(capacity, first.decoder, b);
            Feed(capacity, decoder, bytes + [b]) == Decoded(last.decoder, first.packets + last.packets)
  {
    hide Step;
    var first := Feed(capacity, decoder, bytes);
    FeedAppend(capacity, decoder, bytes, [b]);
    FeedFirst(capacity, first.decoder, b, []);
    assert [b] + [] == [b];
    var last := Step(capacity, first.decoder, b);
    assert last.packets + [] == last.packets;
  }

  /** Decoding a stream in pieces, one call a piece. */
  function FeedAll(capacity: nat, decoder: Decoder, pieces: seq<seq<byte>>): Decoded
    decreases |pieces|
  {
    if pieces == [] then Decoded(decoder, [])
    else
      var first := Feed(capacity, decoder, pieces[0]);
      var rest := FeedAll(capacity, first.decoder, pieces[1..]);
      Decoded(rest.decoder, first.packets + rest.packets)
  }

  /** However a stream is cut into pieces, the decoder ends in the same state with the same deliveries. */
  lemma {:induction false} SplitDoesNotMatter(capacity: nat, decoder: Decoder, pieces: seq<seq<byte>>)
    ensures FeedAll(capacity, decoder, pieces) == Feed(capacity, decoder, Flatten(pieces))
    decreases |pieces|
  {
    hide Step, Feed;
    if pieces == [] {
      FeedNothing(capacity, decoder);
    } else {
      FeedAppend(capacity, decoder, pieces[0], Flatten(pieces[1..]));
      SplitDoesNotMatter(capacity, Feed(capacity, decoder, pieces[0]).decoder, pieces[1..]);
    }
  }

  // ---------------------------------------------------------------- what a frame delivers

  /** The position of the first START value in the data, or its length. */
  function FirstStart(data: seq<byte>): (p: nat)
    ensures p <= |data| && START !in data[..p]
    ensures p < |data| ==> data[p] == START
  {
    if data == [] || data[0] == START then 0
    else
      var p := 1 + FirstStart(data[1..]);
      assert data[..p] == [data[0]] + data[1..][..p - 1];
      p
  }

  /** The packets a frame body leaves once the decoder has given up: the part after the next START value, if it fits. */
  function Salvaged(capacity: nat, data: seq<byte>): (packets: seq<seq<byte>>)
    decreases |data|, 1
  {
    var p := FirstStart(data);
    if p == |data| then [] else Yield(capacity, [], data[p + 1..])
  }

  /** The packets a frame body delivers to a decoder that already holds `prefix`. */
  function Yield(capacity: nat, prefix: seq<byte>, data: seq<byte>): (packets: seq<seq<byte>>)
    requires |prefix| <= capacity
    decreases |data|, 0
  {
    if |prefix| + |data| <= capacity then [prefix + data]
    else Salvaged(capacity, data[capacity - |prefix| + 1..])
  }

  /** One stuffed byte, escaped or not, stores exactly that byte. */
  lemma StuffedByteIsStored(capacity: nat, prefix: seq<byte>, b: byte, tail: seq<byte>)
    ensures Feed(capacity, Decoder(DataByte, prefix), StuffByte(b) + tail)
         == Feed(capacity, Store(capacity, prefix, b), tail)
  {
    var decoder := Decoder(DataByte, prefix);
    var after := Feed(capacity, Store(capacity, prefix, b), tail);
    assert [] + after.packets == after.packets;
    if IsSpecial(b) {
      assert StuffByte(b) + tail == [ESCAPE] + ([b] + tail);
      FeedFirst(capacity, decoder, ESCAPE, [b] + tail);
      FeedFirst(capacity, Decoder(EscapeByte, prefix), b, tail);
    } else {
      FeedFirst(capacity, decoder, b, tail);
    }
  }

  /** An idle decoder passes over a stuffed byte, except that an escaped START value opens a packet. */
  lemma StuffedByteWhileIdle(capacity: nat, b: byte, tail: seq<byte>)
    ensures Feed(capacity, IDLE, StuffByte(b) + tail)
         == Feed(capacity, if b == START then Decoder(DataByte, []) else IDLE, tail)
  {
    var next := if b == START then Decoder(DataByte, []) else IDLE;
    var after := Feed(capacity, next, tail);
    assert [] + after.packets == after.packets;
    FeedFirst(capacity, IDLE, b, tail);
    if IsSpecial(b) {
      assert StuffByte(b) + tail == [ESCAPE] + ([b] + tail);
      FeedFirst(capacity, IDLE, ESCAPE, [b] + tail);
    }
  }

  lemma {:induction false} YieldNext(capacity: nat, prefix: seq<byte>, data: seq<byte>)
    requires |prefix| <= capacity && data != []
    ensures |prefix| < capacity ==> Yield(capacity, prefix, data) == Yield(capacity, prefix + [data[0]], data[1..])
    ensures |prefix| == capacity ==> Yield(capacity, prefix, data) == Salvaged(capacity, data[1..])
  {
    if |prefix| + |data| <= capacity {
      assert prefix + data == (prefix + [data[0]]) + data[1..];
    } else if |prefix| < capacity {
      assert data[capacity - |prefix| + 1..] == data[1..][capacity - |prefix|..];
    }
  }

  lemma {:induction false} SalvagedNext(capacity: nat, data: seq<byte>)
    requires data != []
    ensures Salvaged(capacity, data)
         == if data[0] == START then Yield(capacity, [], data[1..]) else Salvaged(capacity, data[1..])
  {
    if data[0] != START {
      var p := FirstStart(data[1..]);
      if p < |data[1..]| {
        assert data[p + 2..] == data[1..][p + 1..];
      }
    }
  }

  lemma StuffSplits(data: seq<byte>, tail: seq<byte>)
    requires data != []
    ensures Stuff(data) + tail == StuffByte(data[0]) + (Stuff(data[1..]) + tail)
  {
  }

  /** The rest of a frame, from inside it: delivered whole when it fits, otherwise salvaged. */
  lemma {:induction false} BodyInPacket(capacity: nat, prefix: seq<byte>, data: seq<byte>)
    requires |prefix| <= capacity
    ensures Feed(capacity, Decoder(DataByte, prefix), Stuff(data) + [STOP])
         == Decoded(IDLE, Yield(capacity, prefix, data))
    decreases |data|
  {
    if data == [] {
      FeedFirst(capacity, Decoder(DataByte, prefix), STOP, []);
      assert Stuff(data) + [STOP] == [STOP] + [];
      assert prefix + data == prefix;
    } else {
      hide Feed, Stuff, StuffByte, Yield, Salvaged;
      StuffSplits(data, [STOP]);
      StuffedByteIsStored(capacity, prefix, data[0], Stuff(data[1..]) + [STOP]);
      YieldNext(capacity, prefix, data);
      if |prefix| < capacity {
        BodyInPacket(capacity, prefix + [data[0]], data[1..]);
      } else {
        BodyWhileIdle(capacity, data[1..]);
      }
    }
  }

  /** The rest of a frame, seen by an idle decoder. */
  lemma {:induction false} BodyWhileIdle(capacity: nat, data: seq<byte>)
    ensures Feed(capacity, IDLE, Stuff(data) + [STOP]) == Decoded(IDLE, Salvaged(capacity, data))
    decreases |data|
  {
    if data == [] {
      FeedFirst(capacity, IDLE, STOP, []);
      assert Stuff(data) + [STOP] == [STOP] + [];
    } else {
      hide Feed, Stuff, StuffByte, Yield, Salvaged;
      StuffSplits(data, [STOP]);
      StuffedByteWhileIdle(capacity, data[0], Stuff(data[1..]) + [STOP]);
      SalvagedNext(capacity, data);
      if data[0] == START {
        BodyInPacket(capacity, [], data[1..]);
      } else {
        BodyWhileIdle(capacity, data[1..]);
      }
    }
  }

  /** What a complete frame delivers to a decoder in any state. */
  function FrameYield(capacity: nat, decoder: Decoder, data: seq<byte>): seq<seq<byte>>
    requires |decoder.prefix| <= capacity
  {
    match decoder.state
    case Wait => Yield(capacity, decoder.prefix, data)
    case DataByte => Yield(capacity, [], data)
    case EscapeByte =>
      if |decoder.prefix| < capacity then Yield(capacity, decoder.prefix + [START], data)
      else Salvaged(capacity, data)
  }

  /** Whatever state the decoder is in, a complete frame leaves it idle and delivers exactly FrameYield. */
  lemma FrameFromAnyState(capacity: nat, decoder: Decoder, data: seq<byte>)
    requires |decoder.prefix| <= capacity
    ensures Feed(capacity, decoder, Frame(data)) == Decoded(IDLE, FrameYield(capacity, decoder, data))
  {
    hide Feed, Stuff, Yield, Salvaged;
    var body := Stuff(data) + [STOP];
    assert Frame(data) == [START] + body;
    FeedFirst(capacity, decoder, START, body);
    var first := Step(capacity, decoder, START);
    var rest := Feed(capacity, first.decoder, body);
    assert first.packets + rest.packets == rest.packets;
    if first.decoder == IDLE {
      BodyWhileIdle(capacity, data);
    } else {
      BodyInPacket(capacity, first.decoder.prefix, data);
    }
  }

  // ---------------------------------------------------------------- oversized frames

  /** Every packet a body yields is the whole body after the prefix, or shorter than the body. */
  lemma {:induction false} YieldSize(capacity: nat, prefix: seq<byte>, data: seq<byte>)
    requires |prefix| <= capacity
    ensures var packets := Yield(capacity, prefix, data);
            packets == [] || packets == [prefix + data] || (|packets| == 1 && |packets[0]| < |data|)
    decreases |data|, 1
  {
    if |prefix| + |data| > capacity {
      SalvagedSize(capacity, data[capacity - |prefix| + 1..]);
    }
  }

  lemma {:induction false} SalvagedSize(capacity: nat, data: seq<byte>)
    ensures var packets := Salvaged(capacity, data);
            packets == [] || (|packets| == 1 && |packets[0]| < |data|)
    decreases |data|, 0
  {
    var p := FirstStart(data);
    if p < |data| {
      YieldSize(capacity, [], data[p + 1..]);
    }
  }

  lemma {:induction false} FirstStartIs(data: seq<byte>, p: nat)
    requires p < |data| && data[p] == START && START !in data[..p]
    ensures FirstStart(data) == p
    decreases p
  {
    if p != 0 {
      assert data[..p][0] == data[0];
      assert data[1..][..p - 1] == data[..p][1..];
      FirstStartIs(data[1..], p - 1);
    }
  }

  lemma FrameThatFits(capacity: nat, data: seq<byte>)
    requires |data| <= capacity
    ensures Feed(capacity, IDLE, Frame(data)) == Decoded(IDLE, [data])
  {
    hide Feed, Frame;
    FrameFromAnyState(capacity, IDLE, data);
    assert Yield(capacity, [], data) == [[] + data];
    assert [] + data == data;
  }

  lemma FrameThatIsLost(capacity: nat, data: seq<byte>)
    requires capacity < |data| && START !in data[capacity + 1..]
    ensures Feed(capacity, IDLE, Frame(data)) == Decoded(IDLE, [])
  {
    hide Feed, Frame;
    FrameFromAnyState(capacity, IDLE, data);
    var rest := data[capacity + 1..];
    assert FirstStart(rest) == |rest|;
    assert Yield(capacity, [], data) == Salvaged(capacity, rest);
  }

  lemma FrameThatResumes(capacity: nat, data: seq<byte>, p: nat)
    requires capacity < p < |data| && data[p] == START && START !in data[capacity + 1..p]
    ensures Feed(capacity, IDLE, Frame(data)) == Feed(capacity, IDLE, Frame(data[p + 1..]))
  {
    hide Feed, Frame;
    FrameFromAnyState(capacity, IDLE, data);
    FrameFromAnyState(capacity, IDLE, data[p + 1..]);
    var rest, q := data[capacity + 1..], p - (capacity + 1);
    assert rest[..q] == data[capacity + 1..p];
    FirstStartIs(rest, q);
    assert rest[q + 1..] == data[p + 1..];
    assert Yield(capacity, [], data) == Salvaged(capacity, rest);
  }

  /**
   * A frame that fits is delivered whole. One that does not is cut at the first START value beyond the
   * byte that overflowed, and what follows is treated as a frame of its own; without one nothing is delivered.
   */
  lemma OversizedFrame(capacity: nat, data: seq<byte>, p: nat)
    ensures |data| <= capacity ==> Feed(capacity, IDLE, Frame(data)) == Decoded(IDLE, [data])
    ensures capacity < |data| && START !in data[capacity + 1..] ==>
              Feed(capacity, IDLE, Frame(data)) == Decoded(IDLE, [])
    ensures capacity < p < |data| && data[p] == START && START !in data[capacity + 1..p] ==>
              Feed(capacity, IDLE, Frame(data)) == Feed(capacity, IDLE, Frame(data[p + 1..]))
  {
    hide Feed, Frame;
    if |data| <= capacity {
      FrameThatFits(capacity, data);
    } else if START !in data[capacity + 1..] {
      FrameThatIsLost(capacity, data);
    }
    if capacity < p < |data| && data[p] == START && START !in data[capacity + 1..p] {
      FrameThatResumes(capacity, data, p);
    }
  }

  // ---------------------------------------------------------------- streams of frames

  /** The states a run from initialisation can reach. */
  predicate IsReachable(capacity: nat, decoder: Decoder) {
    |decoder.prefix| <= capacity && (decoder.state == Wait ==> decoder.prefix == [])
  }

  lemma {:induction false} FeedStaysReachable(capacity: nat, decoder: Decoder, bytes: seq<byte>)
    requires IsReachable(capacity, decoder)
    ensures IsReachable(capacity, Feed(capacity, decoder, bytes).decoder)
    ensures forall packet :: packet in Feed(capacity, decoder, bytes).packets ==> |packet| <= capacity
    decreases |bytes|
  {
    if bytes != [] {
      FeedStaysReachable(capacity, Step(capacity, decoder, bytes[0]).decoder, bytes[1..]);
    }
  }

  predicate AllFit(capacity: nat, packets: seq<seq<byte>>) {
    forall i :: 0 <= i < |packets| ==> |packets[i]| <= capacity
  }

  function Frames(packets: seq<seq<byte>>): seq<byte> {
    if packets == [] then [] else Frame(packets[0]) + Frames(packets[1..])
  }

  lemma {:induction false} FramesInOrder(capacity: nat, packets: seq<seq<byte>>)
    requires AllFit(capacity, packets)
    ensures Feed(capacity, IDLE, Frames(packets)) == Decoded(IDLE, packets)
  {
    hide Feed, Frame;
    if packets == [] {
      FeedNothing(capacity, IDLE);
    } else {
      FrameThatFits(capacity, packets[0]);
      FramesInOrder(capacity, packets[1..]);
      FeedAppend(capacity, IDLE, Frame(packets[0]), Frames(packets[1..]));
      assert packets == [packets[0]] + packets[1..];
    }
  }

  /** Any number of frames that fit, cut into any pieces, come out as the same packets in the same order. */
  lemma FramerRoundTrip(capacity: nat, packets: seq<seq<byte>>, pieces: seq<seq<byte>>)
    requires AllFit(capacity, packets)
    requires Flatten(pieces) == Frames(packets)
    ensures FeedAll(capacity, IDLE, pieces) == Decoded(IDLE, packets)
  {
    hide FeedAll, Feed, Frames, Flatten;
    SplitDoesNotMatter(capacity, IDLE, pieces);
    FramesInOrder(capacity, packets);
  }

  /**
   * After any noise, the first frame leaves the decoder idle and delivers at most one packet: its own,
   * exactly when the noise did not end inside an escape. Every later frame delivers its own packet.
   */
  lemma SelfSynchronisation(capacity: nat, decoder: Decoder, noise: seq<byte>, packets: seq<seq<byte>>)
      returns (lead: seq<seq<byte>>)
    requires IsReachable(capacity, decoder)
    requires packets != [] && AllFit(capacity, packets)
    ensures |lead| <= 1
    ensures lead == [packets[0]] <==> Feed(capacity, decoder, noise).decoder.state != EscapeByte
    ensures Feed(capacity, decoder, noise + Frames(packets))
         == Decoded(IDLE, Feed(capacity, decoder, noise).packets + lead + packets[1..])
  {
    hide Feed, Frame;
    var before := Feed(capacity, decoder, noise);
    FeedStaysReachable(capacity, decoder, noise);
    FirstFrame(capacity, before.decoder, packets[0]);
    FramesInOrder(capacity, packets[1..]);
    FeedAppend(capacity, decoder, noise, Frames(packets));
    FeedAppend(capacity, before.decoder, Frame(packets[0]), Frames(packets[1..]));
    lead := Feed(capacity, before.decoder, Frame(packets[0])).packets;
    assert before.packets + (lead + packets[1..]) == before.packets + lead + packets[1..];
  }

  lemma FirstFrame(capacity: nat, decoder: Decoder, data: seq<byte>)
    requires IsReachable(capacity, decoder) && |data| <= capacity
    ensures var after := Feed(capacity, decoder, Frame(data));
            && after.decoder == IDLE && |after.packets| <= 1
            && (after.packets == [data] <==> decoder.state != EscapeByte)
  {
    hide Feed, Frame;
    FrameFromAnyState(capacity, decoder, data);
    assert [] + data == data;
    if decoder.state == EscapeByte {
      if |decoder.prefix| < capacity {
        YieldSize(capacity, decoder.prefix + [START], data);
      } else {
        SalvagedSize(capacity, data);
      }
    }
  }

  /** A decoder restarted in mid-packet keeps its index: the next fitting frame comes behind the stale bytes. */
  lemma StalePrefix(capacity: nat, prefix: seq<byte>, data: seq<byte>)
    requires |prefix| + |data| <= capacity
    ensures Feed(capacity, Decoder(Wait, prefix), Frame(data)) == Decoded(IDLE, [prefix + data])
  {
    hide Feed, Frame;
    FrameFromAnyState(capacity, Decoder(Wait, prefix), data);
  }

  // ---------------------------------------------------------------- deliveries are frames of the stream

  datatype Unstuffed = Unstuffed(data: seq<byte>) | Malformed

  /** A frame body read on its own: an escape makes the next byte plain; a bare START or STOP is malformed. */
  function Unstuff(body: seq<byte>): Unstuffed
    decreases |body|
  {
    if body == [] then Unstuffed([])
    else if body[0] == START || body[0] == STOP then Malformed
    else if body[0] != ESCAPE then Prepend(body[0], Unstuff(body[1..]))
    else if |body| == 1 then Malformed
    else Prepend(body[1], Unstuff(body[2..]))
  }

  function Prepend(b: byte, rest: Unstuffed): Unstuffed {
    if rest.Malformed? then Malformed else Unstuffed([b] + rest.data)
  }

  lemma {:induction false} UnstuffStuff(data: seq<byte>)
    ensures Unstuff(Stuff(data)) == Unstuffed(data)
  {
    if data != [] {
      UnstuffStuff(data[1..]);
      var stuffed, one := Stuff(data), StuffByte(data[0]);
      assert stuffed == one + Stuff(data[1..]);
      assert stuffed[|one|..] == Stuff(data[1..]);
      assert stuffed[0] == one[0] && stuffed[|one| - 1] == data[0];
      assert [data[0]] + data[1..] == data;
    }
  }

  /** A body begins with a plain or an escaped byte. */
  predicate IsPlainFirst(body: seq<byte>) {
    body != [] && body[0] != START && body[0] != STOP && (body[0] == ESCAPE ==> |body| > 1)
  }

  lemma StartsPlain(body: seq<byte>)
    requires body != [] && Unstuff(body).Unstuffed?
    ensures IsPlainFirst(body)
  {
  }

  lemma UnstuffNext(body: seq<byte>)
    requires IsPlainFirst(body)
    ensures var n := if body[0] == ESCAPE then 2 else 1;
            Unstuff(body) == Prepend(body[n - 1], Unstuff(body[n..]))
  {
  }

  lemma {:induction false} UnstuffAppend(a: seq<byte>, b: seq<byte>)
    requires Unstuff(a).Unstuffed?
    ensures Unstuff(a + b) == if Unstuff(b).Malformed? then Malformed
                              else Unstuffed(Unstuff(a).data + Unstuff(b).data)
    decreases |a|
  {
    hide Unstuff;
    if a == [] {
      assert a + b == b;
      NothingUnstuffs();
      if Unstuff(b).Unstuffed? {
        assert [] + Unstuff(b).data == Unstuff(b).data;
      }
    } else {
      StartsPlain(a);
      var n := if a[0] == ESCAPE then 2 else 1;
      assert (a + b)[n..] == a[n..] + b;
      assert (a + b)[0] == a[0] && (a + b)[n - 1] == a[n - 1];
      UnstuffNext(a);
      UnstuffNext(a + b);
      UnstuffAppend(a[n..], b);
      if Unstuff(b).Unstuffed? {
        var x, y := Unstuff(a[n..]).data, Unstuff(b).data;
        assert [a[n - 1]] + (x + y) == ([a[n - 1]] + x) + y;
      }
    }
  }

  lemma NothingUnstuffs()
    ensures Unstuff([]) == Unstuffed([])
  {
  }

  /** `body` is what the stream holds since the START that opened the current packet. */
  predicate IsOpenBody(body: seq<byte>, decoder: Decoder) {
    match decoder.state
    case Wait => false
    case DataByte => Unstuff(body) == Unstuffed(decoder.prefix)
    case EscapeByte =>
      && body != [] && body[|body| - 1] == ESCAPE
      && Unstuff(body[..|body| - 1]) == Unstuffed(decoder.prefix)
  }

  lemma BodyGrows(capacity: nat, decoder: Decoder, body: seq<byte>, b: byte)
    requires IsOpenBody(body, decoder)
    requires Step(capacity, decoder, b).decoder.state != Wait
    requires !(decoder.state == DataByte && b == START)
    ensures IsOpenBody(body + [b], Step(capacity, decoder, b).decoder)
  {
    assert Unstuff([]) == Unstuffed([]);
    if decoder.state == EscapeByte {
      var plain := body[..|body| - 1];
      assert body + [b] == plain + [ESCAPE, b];
      assert [ESCAPE, b][2..] == [];
      assert Unstuff([ESCAPE, b]) == Unstuffed([b]);
      UnstuffAppend(plain, [ESCAPE, b]);
    } else if b == ESCAPE {
      assert (body + [b])[..|body|] == body;
    } else {
      assert [b][1..] == [];
      assert Unstuff([b]) == Unstuffed([b]);
      UnstuffAppend(body, [b]);
    }
  }

  /** While a packet is open, the stream holds the START it began with and, after it, exactly the stored bytes. */
  lemma {:induction false} OpenPacket(capacity: nat, input: seq<byte>) returns (start: nat)
    requires Feed(capacity, IDLE, input).decoder.state != Wait
    ensures start < |input| && input[start] == START
    ensures Feed(capacity, IDLE, input[..start]).decoder.state != EscapeByte
    ensures Feed(capacity, IDLE, input[..start]).packets == Feed(capacity, IDLE, input).packets
    ensures IsOpenBody(input[start + 1..], Feed(capacity, IDLE, input).decoder)
    decreases |input|
  {
    hide Unstuff, Feed, IsOpenBody;
    if input == [] {
      FeedNothing(capacity, IDLE);
      assert false;
    }
    var earlier, b := input[..|input| - 1], input[|input| - 1];
    assert input == earlier + [b];
    var before := Feed(capacity, IDLE, earlier).decoder;
    FeedLast(capacity, IDLE, earlier, b);
    if before.state == Wait || (before.state == DataByte && b == START) {
      start := |earlier|;
      assert input[..start] == earlier;
      assert input[start + 1..] == [];
      IdlePrefix(capacity, earlier);
      NothingIsOpen(Feed(capacity, IDLE, input).decoder);
    } else {
      start := OpenPacket(capacity, earlier);
      assert input[..start] == earlier[..start];
      assert input[start + 1..] == earlier[start + 1..] + [b];
      BodyGrows(capacity, before, earlier[start + 1..], b);
    }
  }

  lemma NothingIsOpen(decoder: Decoder)
    requires decoder == Decoder(DataByte, [])
    ensures IsOpenBody([], decoder)
  {
  }

  lemma IdlePrefix(capacity: nat, input: seq<byte>)
    ensures var decoder := Feed(capacity, IDLE, input).decoder;
            decoder.state == Wait ==> decoder.prefix == []
  {
    FeedStaysReachable(capacity, IDLE, input);
  }

  /**
   * Over every run from initialisation, each delivered packet is a well-formed frame body of the stream:
   * it stands between an honoured START and a STOP and unstuffs to exactly the delivered bytes. At both of
   * them the earlier packets are out and no other; the STOP adds exactly this one.
   */
  lemma {:induction false} DeliveryIsAFrame(capacity: nat, input: seq<byte>, i: nat) returns (start: nat, stop: nat)
    requires i < |Feed(capacity, IDLE, input).packets|
    ensures start < stop < |input| && input[start] == START && input[stop] == STOP
    ensures Feed(capacity, IDLE, input[..start]).decoder.state != EscapeByte
    ensures Unstuff(input[start + 1..stop]) == Unstuffed(Feed(capacity, IDLE, input).packets[i])
    ensures Feed(capacity, IDLE, input[..start]).packets == Feed(capacity, IDLE, input).packets[..i]
    ensures Feed(capacity, IDLE, input[..stop]).packets == Feed(capacity, IDLE, input).packets[..i]
    ensures Feed(capacity, IDLE, input[..stop + 1]).packets == Feed(capacity, IDLE, input).packets[..i + 1]
    decreases |input|
  {
    hide Unstuff, Feed;
    if input == [] {
      FeedNothing(capacity, IDLE);
      assert false;
    }
    var earlier, b := input[..|input| - 1], input[|input| - 1];
    assert input == earlier + [b];
    var before := Feed(capacity, IDLE, earlier);
    FeedLast(capacity, IDLE, earlier, b);
    if i < |before.packets| {
      start, stop := DeliveryIsAFrame(capacity, earlier, i);
      assert input[..start] == earlier[..start];
      assert input[start + 1..stop] == earlier[start + 1..stop];
      assert input[..stop] == earlier[..stop] && input[..stop + 1] == earlier[..stop + 1];
    } else {
      start := OpenPacket(capacity, earlier);
      stop := |earlier|;
      assert input[..start] == earlier[..start];
      assert input[start + 1..stop] == earlier[start + 1..];
      assert input[..stop] == earlier && input[..stop + 1] == input;
    }
  }

  /** Conversely, every well-formed body that fits is delivered, whatever escapes its sender chose. */
  lemma WellFormedIsDelivered(capacity: nat, decoder: Decoder, body: seq<byte>)
    requires IsReachable(capacity, decoder) && decoder.state != EscapeByte
    requires Unstuff(body).Unstuffed? && |Unstuff(body).data| <= capacity
    ensures Feed(capacity, decoder, [START] + body + [STOP]) == Decoded(IDLE, [Unstuff(body).data])
  {
    hide Feed, Unstuff;
    assert [START] + body + [STOP] == [START] + (body + [STOP]);
    FeedFirst(capacity, decoder, START, body + [STOP]);
    BodyIsStored(capacity, [], body);
    var data := Unstuff(body).data;
    assert [] + data == data;
    FeedFirst(capacity, Decoder(DataByte, data), STOP, []);
    FeedNothing(capacity, IDLE);
    assert [STOP] + [] == [STOP];
  }

  lemma {:induction false} BodyIsStored(capacity: nat, prefix: seq<byte>, body: seq<byte>)
    requires Unstuff(body).Unstuffed? && |prefix| + |Unstuff(body).data| <= capacity
    ensures Feed(capacity, Decoder(DataByte, prefix), body + [STOP])
         == Feed(capacity, Decoder(DataByte, prefix + Unstuff(body).data), [STOP])
    decreases |body|
  {
    hide Feed;
    if body == [] {
      assert body + [STOP] == [STOP];
      assert prefix + [] == prefix;
    } else {
      var n := if body[0] == ESCAPE then 2 else 1;
      var rest, b := body[n..], body[n - 1];
      assert prefix + Unstuff(body).data == (prefix + [b]) + Unstuff(rest).data;
      BodyIsStored(capacity, prefix + [b], rest);
      assert body + [STOP] == body[..n] + (rest + [STOP]);
      RawByteIsStored(capacity, prefix, body[..n], rest + [STOP]);
    }
  }

  lemma RawByteIsStored(capacity: nat, prefix: seq<byte>, code: seq<byte>, tail: seq<byte>)
    requires |prefix| < capacity
    requires |code| == (if |code| > 0 && code[0] == ESCAPE then 2 else 1)
    requires code[0] != START && code[0] != STOP
    ensures Feed(capacity, Decoder(DataByte, prefix), code + tail)
         == Feed(capacity, Decoder(DataByte, prefix + [code[|code| - 1]]), tail)
  {
    hide Feed;
    var b := code[|code| - 1];
    var after := Feed(capacity, Decoder(DataByte, prefix + [b]), tail);
    assert [] + after.packets == after.packets;
    if code[0] == ESCAPE {
      assert code + tail == [ESCAPE] + ([b] + tail);
      FeedFirst(capacity, Decoder(DataByte, prefix), ESCAPE, [b] + tail);
      FeedFirst(capacity, Decoder(EscapeByte, prefix), b, tail);
    } else {
      assert code + tail == [b] + tail;
      FeedFirst(capacity, Decoder(DataByte, prefix), b, tail);
    }
  }
}
