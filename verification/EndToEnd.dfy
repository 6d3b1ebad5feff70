/**
 * A whole link: broker, encoder, a line that re-splits the bytes at will, decoder, broker. The decoder's
 * receive callback has the signature of the broker's receive function, so the two compose directly.
 */
module EndToEnd {
  import opened Bytes
  import opened SpacePacket
  import opened Framing
  import opened Escapers
  import opened BrokerModel
  import PacketFormat
  import CcsdsFormat
  import ThinPacketizer
  import PacketErrors
  import CrcDistance
  import Crc16

  /** The buffers an encoder hands to its device for these packets, the i-th with buffers of sizes[i] bytes. */
  function LineTraffic(sizes: seq<nat>, packets: seq<seq<byte>>): seq<seq<byte>>
    requires |sizes| == |packets| && forall i :: 0 <= i < |sizes| ==> sizes[i] >= 2
    decreases |packets|
  {
    if packets == [] then [] else Chunks(sizes[0], Frame(packets[0])) + LineTraffic(sizes[1..], packets[1..])
  }

  /** Whatever the buffer sizes, the line carries the frames of the packets one after the other. */
  lemma {:induction false} LineCarriesFrames(sizes: seq<nat>, packets: seq<seq<byte>>)
    requires |sizes| == |packets| && forall i :: 0 <= i < |sizes| ==> sizes[i] >= 2
    ensures Flatten(LineTraffic(sizes, packets)) == Frames(packets)
    decreases |packets|
  {
    hide Chunks, Frame;
    if packets != [] {
      ChunksCover(sizes[0], Frame(packets[0]));
      FlattenConcat(Chunks(sizes[0], Frame(packets[0])), LineTraffic(sizes[1..], packets[1..]));
      LineCarriesFrames(sizes[1..], packets[1..]);
    }
  }

  /** The receive callbacks for these packets, in order. */
  function Receptions(bus: nat, packets: seq<seq<byte>>): (events: seq<Event>)
    ensures |events| == |packets|
    ensures forall i :: 0 <= i < |events| ==> events[i] == Receive(bus, packets[i])
  {
    if packets == [] then [] else [Receive(bus, packets[0])] + Receptions(bus, packets[1..])
  }

  lemma ReceptionsAreAdmitted(config: Config, bus: nat, packets: seq<seq<byte>>)
    requires bus < |config.busToPacketizerCfg|
    ensures AdmitsAll(config, Receptions(bus, packets))
  {
  }

  /** The broker after it has received these packets on one bus. */
  function Received(config: Config, state: State, bus: nat, packets: seq<seq<byte>>): (after: State)
    requires config.Valid() && |state.counts| == |config.busToPacketizerCfg| && bus < |state.counts|
    ensures |after.counts| == |config.busToPacketizerCfg|
  {
    ReceptionsAreAdmitted(config, bus, packets);
    Run(config, state, Receptions(bus, packets))
  }

  lemma ReceivedFirst(config: Config, state: State, bus: nat, first: seq<byte>, rest: seq<seq<byte>>)
    requires config.Valid() && |state.counts| == |config.busToPacketizerCfg| && bus < |state.counts|
    ensures Received(config, state, bus, [first] + rest)
         == Received(config, BrokerModel.Step(config, state, Receive(bus, first)), bus, rest)
  {
    hide BrokerModel.Step;
    ReceptionsAreAdmitted(config, bus, [first] + rest);
    assert ([first] + rest)[1..] == rest;
    assert Receptions(bus, [first] + rest)[1..] == Receptions(bus, rest);
  }

  /** Both ends of the link use one packet format; the two names of the default format are one. */
  predicate SameFormat(sender: Config, bus: nat, receiver: Config, receivingBus: nat) {
    && bus < |sender.busToPacketizerCfg| && receivingBus < |receiver.busToPacketizerCfg|
    && Format(sender.busToPacketizerCfg[bus]) == Format(receiver.busToPacketizerCfg[receivingBus])
  }

  function Format(cfg: PacketizerCfg): PacketizerCfg {
    if cfg == Ccsds then Default else cfg
  }

  /** The bytes a format adds to the data. */
  function Overhead(cfg: PacketizerCfg): nat {
    match cfg
    case StrictCcsds => CCSDS_HEADER_SIZE + ERROR_CONTROL_SIZE
    case Thin => THIN_HEADER_SIZE
    case _ => PacketFormat.OVERHEAD
  }

  /** The admitted sizes that a format's length field can carry. */
  predicate CarriesSize(cfg: PacketizerCfg, dataSize: nat) {
    match cfg
    case StrictCcsds => dataSize <= 65534
    case Thin => dataSize <= 65535 && dataSize % 512 != 0
    case _ => true
  }

  /** Only the default format carries the sender; the others deliver 0. */
  function SenderSeen(cfg: PacketizerCfg, sender: bv16): bv16 {
    if Format(cfg) == Default then sender else 0
  }

  /** What the requests ask to be delivered: destination, sender and data of each, in order. */
  function Asked(cfg: PacketizerCfg, requests: seq<Event>): seq<Delivered>
    requires forall i :: 0 <= i < |requests| ==> requests[i].Request?
  {
    if requests == [] then []
    else
      [Delivered(requests[0].interface, SenderSeen(cfg, requests[0].sender), requests[0].data)]
        + Asked(cfg, requests[1..])
  }

  /** A built packet is accepted, with what it was built from, exactly when the format carries its size. */
  lemma BuiltIsAccepted(cfg: PacketizerCfg, packetType: PacketType, count: bv16, interface: bv16, sender: bv16,
                        data: seq<byte>, config: Config)
    requires AdmitsSize(config, cfg, |data|) && interface <= MAX_APID
    ensures var packet := BuildPacket(cfg, packetType, count, interface, sender, data);
            var verdict := JudgePacket(Format(cfg), packetType, packet);
            && |packet| == |data| + Overhead(cfg)
            && (verdict.Accepted? <==> CarriesSize(cfg, |data|))
            && (verdict.Accepted? ==>
                  && verdict.source == SenderSeen(cfg, sender) && verdict.destination == interface
                  && verdict.dataOffset + verdict.dataSize <= |packet|
                  && packet[verdict.dataOffset..verdict.dataOffset + verdict.dataSize] == data)
  {
    hide PacketFormat.Packet, PacketFormat.Judge, CcsdsFormat.Packet, CcsdsFormat.Judge, ThinPacketizer.Packet,
         ThinPacketizer.Judge;
    match cfg {
      case StrictCcsds => CcsdsFormat.PacketRoundTrip(packetType, interface, count, data);
      case Thin =>
        ThinPacketizer.PacketRoundTrip(interface, data);
        var packet := ThinPacketizer.Packet(interface, data);
        assert packet[THIN_HEADER_SIZE..|packet|] == packet[THIN_HEADER_SIZE..];
      case _ => PacketFormat.PacketRoundTrip(packetType, sender, interface, count, data);
    }
  }

  lemma SameJudgement(cfg: PacketizerCfg, packetType: PacketType, packet: seq<byte>)
    ensures JudgePacket(Format(cfg), packetType, packet) == JudgePacket(cfg, packetType, packet)
  {
    hide PacketFormat.Judge, CcsdsFormat.Judge, ThinPacketizer.Judge;
  }

  lemma AcceptedIsDelivered(config: Config, state: State, bus: nat, packet: seq<byte>, verdict: Verdict,
                            data: seq<byte>)
    requires config.Valid() && |state.counts| == |config.busToPacketizerCfg| && bus < |state.counts|
    requires verdict == JudgePacket(config.busToPacketizerCfg[bus], config.expectType, packet) && verdict.Accepted?
    requires verdict.dataOffset + verdict.dataSize <= |packet|
    requires packet[verdict.dataOffset..verdict.dataOffset + verdict.dataSize] == data
    ensures BrokerModel.Step(config, state, Receive(bus, packet))
         == state.(delivered := state.delivered + [Delivered(verdict.destination, verdict.source, data)])
  {
    hide JudgePacket, ToBrokerError;
  }

  lemma BuiltIsDelivered(cfg: PacketizerCfg, config: Config, count: bv16, interface: bv16, sender: bv16,
                         data: seq<byte>, receiver: Config, receivingBus: nat, state: State)
    requires AdmitsSize(config, cfg, |data|) && interface <= MAX_APID && CarriesSize(cfg, |data|)
    requires receiver.Valid() && |state.counts| == |receiver.busToPacketizerCfg| && receivingBus < |state.counts|
    requires Format(cfg) == Format(receiver.busToPacketizerCfg[receivingBus])
    ensures var packet := BuildPacket(cfg, receiver.expectType, count, interface, sender, data);
            BrokerModel.Step(receiver, state, Receive(receivingBus, packet))
            == state.(delivered := state.delivered + [Delivered(interface, SenderSeen(cfg, sender), data)])
  {
    var packet := BuildPacket(cfg, receiver.expectType, count, interface, sender, data);
    hide Config.Valid, BuildPacket, JudgePacket, AdmitsSize, CarriesSize, SenderSeen, Format, Overhead,
         BrokerModel.Step;
    BuiltIsAccepted(cfg, receiver.expectType, count, interface, sender, data, config);
    SameJudgement(receiver.busToPacketizerCfg[receivingBus], receiver.expectType, packet);
    AcceptedIsDelivered(receiver, state, receivingBus, packet, JudgePacket(Format(cfg), receiver.expectType, packet),
                        data);
  }

  lemma RequestArrives(sender: Config, bus: nat, count: bv16, request: Event, receiver: Config, receivingBus: nat,
                       state: State)
    requires sender.Valid() && receiver.Valid() && sender.sendType == receiver.expectType
    requires SameFormat(sender, bus, receiver, receivingBus)
    requires IsRequestOn(sender, request, bus) && CarriesSize(sender.busToPacketizerCfg[bus], |request.data|)
    requires |state.counts| == |receiver.busToPacketizerCfg|
    ensures BrokerModel.Step(receiver, state, Receive(receivingBus, PacketOf(sender, bus, count, request)))
         == state.(delivered := state.delivered + Asked(sender.busToPacketizerCfg[bus], [request]))
  {
    hide BuildPacket, AdmitsSize, CarriesSize, SenderSeen, Format, BrokerModel.Step;
    var cfg := sender.busToPacketizerCfg[bus];
    BuiltIsDelivered(cfg, sender, count, request.interface, request.sender, request.data, receiver, receivingBus,
                     state);
    assert [request][1..] == [];
    assert Asked(cfg, [request]) == [Delivered(request.interface, SenderSeen(cfg, request.sender), request.data)];
  }

  /** The packet of a request can be carried, and is no longer than the receiver's packet buffer. */
  predicate FitsLink(cfg: PacketizerCfg, event: Event, capacity: nat) {
    event.Request? ==> CarriesSize(cfg, |event.data|) && |event.data| + Overhead(cfg) <= capacity
  }

  /** The condition in numbers: what a format's length field carries, and its overhead. */
  lemma FitsLinkInNumbers(cfg: PacketizerCfg, interface: bv16, sender: bv16, data: seq<byte>, capacity: nat)
    ensures FitsLink(cfg, Request(interface, sender, data), capacity)
       <==> match cfg
            case StrictCcsds => |data| <= 65534 && |data| + 8 <= capacity
            case Thin => |data| <= 65535 && |data| % 512 != 0 && |data| + 4 <= capacity
            case _ => |data| + 12 <= capacity
  {
  }

  /** Every request for `bus` among the events fits the link. */
  predicate OnBusFit(config: Config, events: seq<Event>, bus: nat, cfg: PacketizerCfg, capacity: nat) {
    forall i :: 0 <= i < |events| ==> IsRequestOn(config, events[i], bus) ==> FitsLink(cfg, events[i], capacity)
  }

  /** The packets of one bus, received one after the other, deliver what its requests ask. */
  lemma {:induction false} RequestsArrive(sender: Config, bus: nat, count: bv16, events: seq<Event>, capacity: nat,
                                          receiver: Config, receivingBus: nat, state: State)
    requires sender.Valid() && receiver.Valid() && sender.sendType == receiver.expectType
    requires SameFormat(sender, bus, receiver, receivingBus) && |state.counts| == |receiver.busToPacketizerCfg|
    requires AdmitsAll(sender, events) && OnBusFit(sender, events, bus, sender.busToPacketizerCfg[bus], capacity)
    ensures Received(receiver, state, receivingBus, PacketsOn(sender, bus, count, events))
         == state.(delivered := state.delivered
                                + Asked(sender.busToPacketizerCfg[bus], RequestsOn(sender, events, bus)))
    decreases |events|
  {
    hide Received, PacketOf, NextBusCount, BrokerModel.Step, CarriesSize, SenderSeen, Overhead, Format, Resets,
         AdmitsSize;
    var cfg, packets := sender.busToPacketizerCfg[bus], PacketsOn(sender, bus, count, events);
    if events == [] {
      NothingReceived(receiver, state, receivingBus);
      assert state.delivered + Asked(cfg, []) == state.delivered;
    } else if IsRequestOn(sender, events[0], bus) {
      assert FitsLink(cfg, events[0], capacity);
      var first, rest := Asked(cfg, [events[0]]), RequestsOn(sender, events[1..], bus);
      var next := BrokerModel.Step(receiver, state, Receive(receivingBus, packets[0]));
      RequestArrives(sender, bus, count, events[0], receiver, receivingBus, state);
      RequestsArrive(sender, bus, NextBusCount(cfg, count), events[1..], capacity, receiver, receivingBus, next);
      ReceivedFirst(receiver, state, receivingBus, packets[0], packets[1..]);
      assert packets == [packets[0]] + packets[1..];
      AskedFirst(cfg, events[0], rest);
      assert (state.delivered + first) + Asked(cfg, rest) == state.delivered + (first + Asked(cfg, rest));
    } else {
      var after := if Resets(sender, events[0], bus) then 0 else count;
      RequestsArrive(sender, bus, after, events[1..], capacity, receiver, receivingBus, state);
    }
  }

  lemma NothingReceived(config: Config, state: State, bus: nat)
    requires config.Valid() && |state.counts| == |config.busToPacketizerCfg| && bus < |state.counts|
    ensures Received(config, state, bus, []) == state
  {
  }

  lemma AskedFirst(cfg: PacketizerCfg, request: Event, rest: seq<Event>)
    requires request.Request? && forall i :: 0 <= i < |rest| ==> rest[i].Request?
    ensures Asked(cfg, [request] + rest) == Asked(cfg, [request]) + Asked(cfg, rest)
  {
    hide SenderSeen, Asked;
    assert ([request] + rest)[1..] == rest;
    assert [request][1..] == [];
    AskedNext(cfg, [request] + rest);
    AskedNext(cfg, [request]);
    NothingAsked(cfg);
  }

  lemma AskedNext(cfg: PacketizerCfg, requests: seq<Event>)
    requires requests != [] && forall i :: 0 <= i < |requests| ==> requests[i].Request?
    ensures Asked(cfg, requests)
         == [Delivered(requests[0].interface, SenderSeen(cfg, requests[0].sender), requests[0].data)]
            + Asked(cfg, requests[1..])
  {
    hide SenderSeen;
  }

  lemma NothingAsked(cfg: PacketizerCfg)
    ensures Asked(cfg, []) == []
  {
  }

  lemma {:induction false} PacketsFit(config: Config, bus: nat, count: bv16, events: seq<Event>, capacity: nat)
    requires config.Valid() && bus < |config.busToPacketizerCfg| && AdmitsAll(config, events)
    requires OnBusFit(config, events, bus, config.busToPacketizerCfg[bus], capacity)
    ensures AllFit(capacity, PacketsOn(config, bus, count, events))
    decreases |events|
  {
    hide BuildPacket, NextBusCount, CarriesSize, Overhead, AdmitsSize, JudgePacket, Resets;
    if events != [] {
      var cfg, event := config.busToPacketizerCfg[bus], events[0];
      if IsRequestOn(config, event, bus) {
        assert FitsLink(cfg, event, capacity);
        BuiltIsAccepted(cfg, config.sendType, count, event.interface, event.sender, event.data, config);
        PacketsFit(config, bus, NextBusCount(cfg, count), events[1..], capacity);
      } else {
        PacketsFit(config, bus, if Resets(config, event, bus) then 0 else count, events[1..], capacity);
      }
    }
  }

  /** Two brokers on one link, the sender's run, and buffers for its frames: what every delivery theorem starts from. */
  ghost predicate IsLink(sender: Config, before: State, events: seq<Event>, bus: nat, sizes: seq<nat>, capacity: nat,
                         receiver: Config, receivingBus: nat, state: State)
  {
    && sender.Valid() && receiver.Valid() && sender.sendType == receiver.expectType
    && SameFormat(sender, bus, receiver, receivingBus)
    && |before.counts| == |sender.busToPacketizerCfg| && |state.counts| == |receiver.busToPacketizerCfg|
    && SentOn(before.sent, bus) == [] && AdmitsAll(sender, events)
    && OnBusFit(sender, events, bus, sender.busToPacketizerCfg[bus], capacity)
    && |sizes| == |SentOn(Run(sender, before, events).sent, bus)|
    && forall i :: 0 <= i < |sizes| ==> sizes[i] >= 2
  }

  /** What the bus has sent: packets of its requests, each short enough for the receiver. */
  lemma SentPackets(sender: Config, before: State, events: seq<Event>, bus: nat, sizes: seq<nat>, capacity: nat)
    requires sender.Valid() && bus < |sender.busToPacketizerCfg| == |before.counts|
    requires SentOn(before.sent, bus) == [] && AdmitsAll(sender, events)
    requires OnBusFit(sender, events, bus, sender.busToPacketizerCfg[bus], capacity)
    ensures SentOn(Run(sender, before, events).sent, bus) == PacketsOn(sender, bus, before.counts[bus], events)
    ensures AllFit(capacity, SentOn(Run(sender, before, events).sent, bus))
  {
    hide Run, SentOn, PacketsOn, OnBusFit, AllFit;
    var expected := PacketsOn(sender, bus, before.counts[bus], events);
    BusesAreIndependent(sender, before, events, bus);
    assert [] + expected == expected;
    PacketsFit(sender, bus, before.counts[bus], events, capacity);
  }

  /**
   * For every run of the sending broker, every choice of encoding buffers, and every way the line re-splits
   * the bytes, the receiving broker delivers exactly the requests of the bus, in order, and reports no error.
   */
  lemma Delivery(sender: Config, before: State, events: seq<Event>, bus: nat, sizes: seq<nat>,
                 pieces: seq<seq<byte>>, capacity: nat, receiver: Config, receivingBus: nat, state: State)
    requires IsLink(sender, before, events, bus, sizes, capacity, receiver, receivingBus, state)
    requires Flatten(pieces) == Flatten(LineTraffic(sizes, SentOn(Run(sender, before, events).sent, bus)))
    ensures var decoded := FeedAll(capacity, IDLE, pieces);
            && decoded == Decoded(IDLE, SentOn(Run(sender, before, events).sent, bus))
            && Received(receiver, state, receivingBus, decoded.packets)
               == state.(delivered := state.delivered
                                      + Asked(sender.busToPacketizerCfg[bus], RequestsOn(sender, events, bus)))
  {
    hide Run, SentOn, Flatten, Frames, FeedAll, LineTraffic, PacketsOn, RequestsOn, Received, Asked, OnBusFit, AllFit;
    SentPackets(sender, before, events, bus, sizes, capacity);
    LineCarriesFrames(sizes, SentOn(Run(sender, before, events).sent, bus));
    FramerRoundTrip(capacity, SentOn(Run(sender, before, events).sent, bus), pieces);
    RequestsArrive(sender, bus, before.counts[bus], events, capacity, receiver, receivingBus, state);
  }

  // ---------------------------------------------------------------- delivery after noise

  lemma {:induction false} ReceptionsAppend(bus: nat, a: seq<seq<byte>>, b: seq<seq<byte>>)
    ensures Receptions(bus, a + b) == Receptions(bus, a) + Receptions(bus, b)
  {
    assert forall i :: 0 <= i < |a| ==> (a + b)[i] == a[i];
    assert forall i :: 0 <= i < |b| ==> (a + b)[|a| + i] == b[i];
  }

  /** Receiving a and then b is receiving a ++ b. */
  lemma ReceivedInTurn(config: Config, state: State, bus: nat, a: seq<seq<byte>>, b: seq<seq<byte>>)
    requires config.Valid() && |state.counts| == |config.busToPacketizerCfg| && bus < |state.counts|
    ensures Received(config, state, bus, a + b) == Received(config, Received(config, state, bus, a), bus, b)
  {
    hide Run, Receptions, AdmitsAll;
    ReceptionsAppend(bus, a, b);
    ReceptionsAreAdmitted(config, bus, a + b);
    RunAppend(config, state, Receptions(bus, a), Receptions(bus, b));
  }

  /** The events after the first one that sends on the bus send the remaining packets. */
  lemma {:induction false} AfterFirstPacket(config: Config, bus: nat, count: bv16, events: seq<Event>)
      returns (next: bv16, rest: seq<Event>)
    requires bus < |config.busToPacketizerCfg| && AdmitsAll(config, events)
    requires PacketsOn(config, bus, count, events) != []
    ensures AdmitsAll(config, rest) && forall i :: 0 <= i < |rest| ==> rest[i] in events
    ensures PacketsOn(config, bus, next, rest) == PacketsOn(config, bus, count, events)[1..]
    ensures RequestsOn(config, rest, bus) == RequestsOn(config, events, bus)[1..]
    decreases |events|
  {
    hide PacketOf, NextBusCount, Resets, AdmitsSize;
    if IsRequestOn(config, events[0], bus) {
      next, rest := NextBusCount(config.busToPacketizerCfg[bus], count), events[1..];
    } else {
      next, rest := AfterFirstPacket(config, bus, if Resets(config, events[0], bus) then 0 else count, events[1..]);
    }
  }

  lemma RestFits(config: Config, events: seq<Event>, rest: seq<Event>, bus: nat, cfg: PacketizerCfg, capacity: nat)
    requires OnBusFit(config, events, bus, cfg, capacity) && forall i :: 0 <= i < |rest| ==> rest[i] in events
    ensures OnBusFit(config, rest, bus, cfg, capacity)
  {
    hide IsRequestOn, FitsLink;
  }

  /** All packets of the bus but the first, received one after the other, deliver all its requests but the first. */
  lemma LaterRequestsArrive(sender: Config, bus: nat, count: bv16, events: seq<Event>, capacity: nat,
                            receiver: Config, receivingBus: nat, state: State)
    requires sender.Valid() && receiver.Valid() && sender.sendType == receiver.expectType
    requires SameFormat(sender, bus, receiver, receivingBus) && |state.counts| == |receiver.busToPacketizerCfg|
    requires AdmitsAll(sender, events) && OnBusFit(sender, events, bus, sender.busToPacketizerCfg[bus], capacity)
    requires PacketsOn(sender, bus, count, events) != []
    ensures Received(receiver, state, receivingBus, PacketsOn(sender, bus, count, events)[1..])
         == state.(delivered := state.delivered
                                + Asked(sender.busToPacketizerCfg[bus], RequestsOn(sender, events, bus)[1..]))
  {
    hide Received, PacketsOn, RequestsOn, Asked, OnBusFit;
    var next, rest := AfterFirstPacket(sender, bus, count, events);
    RestFits(sender, events, rest, bus, sender.busToPacketizerCfg[bus], capacity);
    RequestsArrive(sender, bus, next, rest, capacity, receiver, receivingBus, state);
  }

  /**
   * The same link when the receiving decoder starts in any reachable state and noise precedes the traffic.
   * Beyond what the noise delivers by itself there is at most one packet before everything falls into place:
   * all requests but the first arrive, exactly and in order, and so does the first unless the noise ended
   * inside an escape.
   */
  lemma DeliveryAfterNoise(sender: Config, before: State, events: seq<Event>, bus: nat, sizes: seq<nat>,
                           decoder: Decoder, noise: seq<byte>, pieces: seq<seq<byte>>, capacity: nat,
                           receiver: Config, receivingBus: nat, state: State)
      returns (lead: seq<seq<byte>>)
    requires IsLink(sender, before, events, bus, sizes, capacity, receiver, receivingBus, state)
    requires IsReachable(capacity, decoder) && sizes != []
    requires Flatten(pieces) == noise + Flatten(LineTraffic(sizes, SentOn(Run(sender, before, events).sent, bus)))
    ensures |lead| <= 1 && RequestsOn(sender, events, bus) != []
    ensures var noisy, decoded := Feed(capacity, decoder, noise), FeedAll(capacity, decoder, pieces);
            var cfg, requests := sender.busToPacketizerCfg[bus], RequestsOn(sender, events, bus);
            var packets := SentOn(Run(sender, before, events).sent, bus);
            var started := Received(receiver, state, receivingBus, noisy.packets + lead);
            var undisturbed := Received(receiver, state, receivingBus, noisy.packets);
            var after := Received(receiver, state, receivingBus, decoded.packets);
            && decoded == Decoded(IDLE, noisy.packets + lead + packets[1..])
            && after == started.(delivered := started.delivered + Asked(cfg, requests[1..]))
            && (noisy.decoder.state != EscapeByte ==>
                  && lead == [packets[0]]
                  && after == undisturbed.(delivered := undisturbed.delivered + Asked(cfg, requests)))
  {
    hide Run, SentOn, Flatten, Frames, FeedAll, Feed, LineTraffic, PacketsOn, RequestsOn, Received, Asked, OnBusFit,
         AllFit;
    var packets, count := SentOn(Run(sender, before, events).sent, bus), before.counts[bus];
    SentPackets(sender, before, events, bus, sizes, capacity);
    LineCarriesFrames(sizes, packets);
    SplitDoesNotMatter(capacity, decoder, pieces);
    lead := SelfSynchronisation(capacity, decoder, noise, packets);
    var noisy := Feed(capacity, decoder, noise).packets;
    ReceivedInTurn(receiver, state, receivingBus, noisy + lead, packets[1..]);
    var started := Received(receiver, state, receivingBus, noisy + lead);
    LaterRequestsArrive(sender, bus, count, events, capacity, receiver, receivingBus, started);
    if lead == [packets[0]] {
      assert noisy + lead + packets[1..] == noisy + packets;
      ReceivedInTurn(receiver, state, receivingBus, noisy, packets);
      var undisturbed := Received(receiver, state, receivingBus, noisy);
      RequestsArrive(sender, bus, count, events, capacity, receiver, receivingBus, undisturbed);
    }
  }

  // ---------------------------------------------------------------- corrupted packets

  /** On a default bus no burst of up to sixteen bits outside the sender bytes ever leads to a delivery. */
  lemma CorruptedPacketIsNotDelivered(config: Config, state: State, bus: nat, packet: seq<byte>, error: seq<byte>,
                                      first: int)
    requires config.Valid() && |state.counts| == |config.busToPacketizerCfg| && bus < |state.counts|
    requires Format(config.busToPacketizerCfg[bus]) == Default
    requires PacketFormat.Judge(config.expectType, packet).Accepted?
    requires |error| == |packet|
    requires forall i :: 0 <= i < |Crc16.Bits(error)| && Crc16.Bits(error)[i] ==> first <= i < first + 16
    requires exists i :: 0 <= i < |error| && error[i] != 0 && !(|packet| - 4 <= i < |packet| - 2)
    ensures Received(config, state, bus, [Xor(packet, error)]).delivered == state.delivered
  {
    hide PacketFormat.Judge, PacketFormat.ReadLength, PacketFormat.HasCheckValue, PacketFormat.IsOfType, Xor,
         Crc16.Bits, Crc16.IsBurst, Crc16.IsZero, Received, Format;
    PacketFormat.JudgeAccepts(config.expectType, packet);
    OutsideSender(error, |packet| - 4);
    PacketFormat.BurstDetection(config.expectType, packet, error, first);
    NotAcceptedNotDelivered(config, state, bus, Xor(packet, error));
  }

  lemma OutsideSender(error: seq<byte>, end: nat)
    requires |error| == end + 4
    requires exists i :: 0 <= i < |error| && error[i] != 0 && !(end <= i < end + 2)
    ensures !(Crc16.IsZero(error[..end]) && Crc16.IsZero(error[end + SENDER_PID_SIZE..]))
  {
    var i :| 0 <= i < |error| && error[i] != 0 && !(end <= i < end + 2);
    if i < end {
      assert error[..end][i] != 0;
    } else {
      assert error[end + 2..][i - (end + 2)] != 0;
    }
  }

  /** Neither does a flip of one, two or three bits outside the sender bytes of a packet of up to 4097 bytes. */
  lemma FewErrorsAreNotDelivered(config: Config, state: State, bus: nat, packet: seq<byte>, error: seq<byte>)
    requires config.Valid() && |state.counts| == |config.busToPacketizerCfg| && bus < |state.counts|
    requires Format(config.busToPacketizerCfg[bus]) == Default
    requires PacketFormat.Judge(config.expectType, packet).Accepted? && 4 <= |error| == |packet| <= 4097
    requires 1 <= CrcDistance.SetBits(Crc16.Bits(PacketErrors.Checked(error))) <= 3
    ensures Received(config, state, bus, [Xor(packet, error)]).delivered == state.delivered
  {
    hide PacketFormat.Judge, CrcDistance.SetBits, Crc16.Bits, PacketErrors.Checked, Xor, Received, Format;
    PacketErrors.FewErrorsAreNoticed(config.expectType, packet, error);
    NotAcceptedNotDelivered(config, state, bus, Xor(packet, error));
  }

  lemma NotAcceptedNotDelivered(config: Config, state: State, bus: nat, packet: seq<byte>)
    requires config.Valid() && |state.counts| == |config.busToPacketizerCfg| && bus < |state.counts|
    requires Format(config.busToPacketizerCfg[bus]) == Default
    requires !PacketFormat.Judge(config.expectType, packet).Accepted?
    ensures Received(config, state, bus, [packet]).delivered == state.delivered
  {
    hide PacketFormat.Judge, Received, BrokerModel.Step;
    assert [packet] == [packet] + [];
    ReceivedFirst(config, state, bus, packet, []);
    RejectedStep(config, state, bus, packet);
    NothingReceived(config, BrokerModel.Step(config, state, Receive(bus, packet)), bus);
  }

  lemma RejectedStep(config: Config, state: State, bus: nat, packet: seq<byte>)
    requires config.Valid() && |state.counts| == |config.busToPacketizerCfg| && bus < |state.counts|
    requires Format(config.busToPacketizerCfg[bus]) == Default
    requires !PacketFormat.Judge(config.expectType, packet).Accepted?
    ensures BrokerModel.Step(config, state, Receive(bus, packet)).delivered == state.delivered
  {
    hide PacketFormat.Judge, ToBrokerError;
    SameJudgement(config.busToPacketizerCfg[bus], config.expectType, packet);
  }
}
