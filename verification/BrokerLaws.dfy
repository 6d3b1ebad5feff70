/**
 * What single calls of the broker do, in terms of the tables, the bytes and the numbers of the interface: where
 * a request goes, which counters an initialisation resets, and which callback hears of which error.
 */
module BrokerLaws {
  import opened Bytes
  import opened SpacePacket
  import opened BrokerModel
  import PacketFormat
  import CcsdsFormat
  import ThinPacketizer
  import IsoChecksum
  import Crc16

  // ---------------------------------------------------------------- what is admitted

  lemma ValidTables(config: Config)
    ensures config.Valid()
       <==> forall interface :: interface in config.portToBus ==>
              Lookup(config.portToBus, interface) < |config.busToPacketizerCfg| && interface <= 2047
  {
  }

  /**
   * A request is admitted when its interface is routed and the partition buffer and its packetizer can take the
   * data.
   */
  lemma AdmittedRequests(config: Config, interface: bv16, sender: bv16, data: seq<byte>)
    requires config.Valid()
    ensures Admits(config, Request(interface, sender, data))
       <==> interface in config.portToBus && |data| <= config.partitionBufferSize
            && match config.busToPacketizerCfg[Lookup(config.portToBus, interface)]
               case StrictCcsds => 1 <= |data| <= 65535
               case Thin => 1 <= |data| <= 0xFFFF_FFFE
               case _ => |data| <= 0xFFFF_FFFE
  {
  }

  // ---------------------------------------------------------------- requests

  /**
   * A request adds exactly one packet, on the bus its interface is routed to and in the format of that bus, and
   * moves that bus's counter on, from 2^14 - 1 to 0, unless the format has none. Nothing else changes.
   */
  lemma RequestIsSent(config: Config, state: State, interface: bv16, sender: bv16, data: seq<byte>)
    requires config.Valid() && |state.counts| == |config.busToPacketizerCfg|
    requires Admits(config, Request(interface, sender, data))
    ensures var bus := Lookup(config.portToBus, interface);
            var cfg, count := config.busToPacketizerCfg[bus], state.counts[bus];
            var packet := match cfg
                          case StrictCcsds => CcsdsFormat.Packet(config.sendType, interface, count, data)
                          case Thin => ThinPacketizer.Packet(interface, data)
                          case _ => PacketFormat.Packet(config.sendType, sender, interface, count, data);
            Step(config, state, Request(interface, sender, data))
            == state.(sent := state.sent + [Sent(bus, packet)],
                      counts := state.counts[bus := if cfg == Thin then count
                                                    else if count >= 16383 then 0 else count + 1])
  {
    hide PacketFormat.Packet, CcsdsFormat.Packet, ThinPacketizer.Packet;
  }

  /** The buses that packets left on, in order. */
  function Buses(sent: seq<Sent>): (buses: seq<nat>)
    ensures |buses| == |sent| && forall i :: 0 <= i < |sent| ==> buses[i] == sent[i].bus
  {
    seq(|sent|, i requires 0 <= i < |sent| => sent[i].bus)
  }

  /** The buses the requests of a run are routed to, in order. */
  function Routes(config: Config, events: seq<Event>): seq<nat>
    requires forall i :: 0 <= i < |events| && events[i].Request? ==> events[i].interface in config.portToBus
    decreases |events|
  {
    if events == [] then []
    else (if events[0].Request? then [Lookup(config.portToBus, events[0].interface)] else [])
         + Routes(config, events[1..])
  }

  lemma AdmittedAreRouted(config: Config, events: seq<Event>)
    requires AdmitsAll(config, events)
    ensures forall i :: 0 <= i < |events| && events[i].Request? ==> events[i].interface in config.portToBus
  {
    hide AdmitsSize;
  }

  /** Over every run, exactly one packet leaves for each request, in order, on the bus its interface is routed to. */
  lemma {:induction false} RequestsAreRouted(config: Config, state: State, events: seq<Event>)
    requires config.Valid() && |state.counts| == |config.busToPacketizerCfg| && AdmitsAll(config, events)
    ensures forall i :: 0 <= i < |events| && events[i].Request? ==> events[i].interface in config.portToBus
    ensures Buses(Run(config, state, events).sent) == Buses(state.sent) + Routes(config, events)
    decreases |events|
  {
    hide Step, Admits, Config.Valid, Buses;
    AdmittedAreRouted(config, events);
    if events == [] {
      assert Buses(state.sent) + [] == Buses(state.sent);
    } else {
      var next, rest := Step(config, state, events[0]), Routes(config, events[1..]);
      OnlyRequestsSend(config, state, events[0]);
      RequestsAreRouted(config, next, events[1..]);
      if events[0].Request? {
        var bus := Lookup(config.portToBus, events[0].interface);
        assert (Buses(state.sent) + [bus]) + rest == Buses(state.sent) + ([bus] + rest);
      } else {
        assert [] + rest == rest;
      }
    }
  }

  lemma OnlyRequestsSend(config: Config, state: State, event: Event)
    requires config.Valid() && |state.counts| == |config.busToPacketizerCfg| && Admits(config, event)
    ensures event.Request? ==> event.interface in config.portToBus
    ensures Buses(Step(config, state, event).sent)
         == Buses(state.sent) + if event.Request? then [Lookup(config.portToBus, event.interface)] else []
  {
    hide JudgePacket, BuildPacket, AdmitsSize;
  }

  // ---------------------------------------------------------------- initialisation

  /**
   * An initialisation sets exactly the counters of those buses to 0 whose packetizer counts and that are listed
   * before the first 0 of the list. Nothing else changes.
   */
  lemma InitialisationResets(config: Config, state: State, validBuses: seq<nat>, bus: nat)
    requires config.Valid() && |state.counts| == |config.busToPacketizerCfg| == |validBuses| && bus < |state.counts|
    ensures var after := Step(config, state, Initialize(validBuses));
            && after == state.(counts := after.counts) && |after.counts| == |state.counts|
            && after.counts[bus]
               == if config.busToPacketizerCfg[bus] in {Default, Ccsds, StrictCcsds}
                     && exists j :: 0 <= j < |validBuses| && validBuses[j] == bus && 0 !in validBuses[..j + 1]
                  then 0 else state.counts[bus]
  {
    hide ListedBuses;
    ListedExactly(validBuses, |state.counts|, bus);
  }

  // ---------------------------------------------------------------- callbacks

  /** The callback registered last is the one in force, whatever happened before and happens meanwhile. */
  lemma {:induction false} LatestCallback(config: Config, state: State, callback: Callback, events: seq<Event>)
    requires config.Valid() && |state.counts| == |config.busToPacketizerCfg| && AdmitsAll(config, events)
    requires forall i :: 0 <= i < |events| ==> !events[i].Register?
    ensures Step(config, state, Register(callback)) == state.(callback := callback)
    ensures Run(config, Step(config, state, Register(callback)), events).callback == callback
  {
    CallbackStays(config, Step(config, state, Register(callback)), events);
  }

  lemma {:induction false} CallbackStays(config: Config, state: State, events: seq<Event>)
    requires config.Valid() && |state.counts| == |config.busToPacketizerCfg| && AdmitsAll(config, events)
    requires forall i :: 0 <= i < |events| ==> !events[i].Register?
    ensures Run(config, state, events).callback == state.callback
    decreases |events|
  {
    hide JudgePacket, BuildPacket, AdmitsSize, Resets;
    if events != [] {
      CallbackStays(config, Step(config, state, events[0]), events[1..]);
    }
  }

  /** Without a callback nothing is ever reported. */
  lemma NobodyListens(config: Config, state: State, bus: nat, packet: seq<byte>)
    requires config.Valid() && |state.counts| == |config.busToPacketizerCfg| && bus < |state.counts|
    requires state.callback == NoCallback
    ensures Step(config, state, Receive(bus, packet)).reported == state.reported
  {
    hide JudgePacket;
  }

  lemma RejectionIsReported(config: Config, state: State, bus: nat, packet: seq<byte>, id: nat, code: nat)
    requires config.Valid() && |state.counts| == |config.busToPacketizerCfg| && bus < |state.counts|
    requires state.callback == Callback(id)
    requires JudgePacket(config.busToPacketizerCfg[bus], config.expectType, packet) == Rejected(code)
    ensures Step(config, state, Receive(bus, packet))
         == state.(reported := state.reported
                               + [Reported(id, if code == 1 then IncorrectCrc16
                                               else if code == 2 then IncorrectPacketType
                                               else if code == 3 then IncorrectPacketSize
                                               else if code == 4 then PacketTooSmall
                                               else UnknownError, packet)])
  {
    hide JudgePacket;
  }

  lemma AcceptanceIsDelivered(config: Config, state: State, bus: nat, packet: seq<byte>, verdict: Verdict)
    requires config.Valid() && |state.counts| == |config.busToPacketizerCfg| && bus < |state.counts|
    requires JudgePacket(config.busToPacketizerCfg[bus], config.expectType, packet) == verdict && verdict.Accepted?
    ensures verdict.dataOffset + verdict.dataSize <= |packet|
    ensures Step(config, state, Receive(bus, packet))
         == state.(delivered := state.delivered
                                + [Delivered(verdict.destination, verdict.source,
                                             packet[verdict.dataOffset..verdict.dataOffset + verdict.dataSize])])
  {
    hide JudgePacket, ToBrokerError;
    AcceptedDataIsInside(config.busToPacketizerCfg[bus], config.expectType, packet);
  }

  // ---------------------------------------------------------------- reports and deliveries of the default format

  /** A buffer shorter than header, sender and check value is too small. */
  lemma TooSmallIsReported(config: Config, state: State, bus: nat, packet: seq<byte>, id: nat)
    requires config.Valid() && |state.counts| == |config.busToPacketizerCfg| && bus < |state.counts|
    requires config.busToPacketizerCfg[bus] in {Default, Ccsds} && state.callback == Callback(id)
    requires |packet| < 12
    ensures Step(config, state, Receive(bus, packet))
         == state.(reported := state.reported + [Reported(id, PacketTooSmall, packet)])
  {
    hide Step, PacketFormat.Judge;
    PacketFormat.SizeOnTheWire(config.expectType, packet);
    RejectionIsReported(config, state, bus, packet, id, 4);
  }

  /** A buffer whose length is not what its length field says has an incorrect size. */
  lemma WrongSizeIsReported(config: Config, state: State, bus: nat, packet: seq<byte>, id: nat)
    requires config.Valid() && |state.counts| == |config.busToPacketizerCfg| && bus < |state.counts|
    requires config.busToPacketizerCfg[bus] in {Default, Ccsds} && state.callback == Callback(id)
    requires |packet| >= 12
    requires var value := packet[4] as nat * 0x100_0000 + packet[5] as nat * 0x1_0000 + packet[6] as nat * 256
                          + packet[7] as nat;
             |packet| != 12 + if value == 0xFFFF_FFFF then 0 else value + 1
    ensures Step(config, state, Receive(bus, packet))
         == state.(reported := state.reported + [Reported(id, IncorrectPacketSize, packet)])
  {
    hide Step, PacketFormat.Judge;
    PacketFormat.SizeOnTheWire(config.expectType, packet);
    RejectionIsReported(config, state, bus, packet, id, 3);
  }

  /** A buffer of the right length whose last two bytes are not its check value has an incorrect check value. */
  lemma WrongCheckValueIsReported(config: Config, state: State, bus: nat, packet: seq<byte>, id: nat)
    requires config.Valid() && |state.counts| == |config.busToPacketizerCfg| && bus < |state.counts|
    requires config.busToPacketizerCfg[bus] in {Default, Ccsds} && state.callback == Callback(id)
    requires |packet| >= 12
    requires var value := packet[4] as nat * 0x100_0000 + packet[5] as nat * 0x1_0000 + packet[6] as nat * 256
                          + packet[7] as nat;
             |packet| == 12 + if value == 0xFFFF_FFFF then 0 else value + 1
    requires var end := |packet| - 4;
             (packet[end + 2] as bv16 << 8) | packet[end + 3] as bv16
             != Crc16.Crc(0, [packet[0] ^ 0xFF, packet[1] ^ 0xFF] + packet[2..end])
    ensures Step(config, state, Receive(bus, packet))
         == state.(reported := state.reported + [Reported(id, IncorrectCrc16, packet)])
  {
    hide Step, PacketFormat.Judge, Crc16.Crc;
    PacketFormat.SizeOnTheWire(config.expectType, packet);
    PacketFormat.CheckOnTheWire(config.expectType, packet);
    RejectionIsReported(config, state, bus, packet, id, 1);
  }

  /** A buffer with right length and check value but the other type bit has an incorrect type. */
  lemma WrongTypeIsReported(config: Config, state: State, bus: nat, packet: seq<byte>, id: nat)
    requires config.Valid() && |state.counts| == |config.busToPacketizerCfg| && bus < |state.counts|
    requires config.busToPacketizerCfg[bus] in {Default, Ccsds} && state.callback == Callback(id)
    requires |packet| >= 12
    requires var value := packet[4] as nat * 0x100_0000 + packet[5] as nat * 0x1_0000 + packet[6] as nat * 256
                          + packet[7] as nat;
             |packet| == 12 + if value == 0xFFFF_FFFF then 0 else value + 1
    requires var end := |packet| - 4;
             (packet[end + 2] as bv16 << 8) | packet[end + 3] as bv16
             == Crc16.Crc(0, [packet[0] ^ 0xFF, packet[1] ^ 0xFF] + packet[2..end])
    requires packet[0] & 0x08 != if config.expectType.Telecommand? then 0x08 else 0x00
    ensures Step(config, state, Receive(bus, packet))
         == state.(reported := state.reported + [Reported(id, IncorrectPacketType, packet)])
  {
    hide Step, PacketFormat.Judge, Crc16.Crc, Word, PacketFormat.ReadDestination;
    PacketFormat.SizeOnTheWire(config.expectType, packet);
    PacketFormat.CheckOnTheWire(config.expectType, packet);
    PacketFormat.TypeOnTheWire(config.expectType, packet);
    RejectionIsReported(config, state, bus, packet, id, 2);
  }

  /** Every other buffer is delivered: the data between header and sender, to the destination, from the sender. */
  lemma SoundPacketIsDelivered(config: Config, state: State, bus: nat, packet: seq<byte>)
    requires config.Valid() && |state.counts| == |config.busToPacketizerCfg| && bus < |state.counts|
    requires config.busToPacketizerCfg[bus] in {Default, Ccsds}
    requires |packet| >= 12
    requires var value := packet[4] as nat * 0x100_0000 + packet[5] as nat * 0x1_0000 + packet[6] as nat * 256
                          + packet[7] as nat;
             |packet| == 12 + if value == 0xFFFF_FFFF then 0 else value + 1
    requires var end := |packet| - 4;
             (packet[end + 2] as bv16 << 8) | packet[end + 3] as bv16
             == Crc16.Crc(0, [packet[0] ^ 0xFF, packet[1] ^ 0xFF] + packet[2..end])
    requires packet[0] & 0x08 == if config.expectType.Telecommand? then 0x08 else 0x00
    ensures var end := |packet| - 4;
            Step(config, state, Receive(bus, packet))
            == state.(delivered := state.delivered
                                   + [Delivered(((packet[0] >> 5) as bv16 << 8) | packet[1] as bv16,
                                                (packet[end] as bv16 << 8) | packet[end + 1] as bv16,
                                                packet[8..end])])
  {
    hide Step, PacketFormat.Judge, Crc16.Crc, Word, PacketFormat.ReadDestination;
    PacketFormat.SizeOnTheWire(config.expectType, packet);
    PacketFormat.CheckOnTheWire(config.expectType, packet);
    PacketFormat.TypeOnTheWire(config.expectType, packet);
    PacketFormat.FieldsOnTheWire(config.expectType, packet);
    AcceptanceIsDelivered(config, state, bus, packet, PacketFormat.Judge(config.expectType, packet));
  }

  // ---------------------------------------------------------------- reports and deliveries of the strict CCSDS format

  /** For a buffer too short to hold a byte of data the packetizer stores no code, so the error is unknown. */
  lemma TooSmallStrictIsUnknown(config: Config, state: State, bus: nat, packet: seq<byte>, id: nat)
    requires config.Valid() && |state.counts| == |config.busToPacketizerCfg| && bus < |state.counts|
    requires config.busToPacketizerCfg[bus] == StrictCcsds && state.callback == Callback(id)
    requires |packet| < 9
    ensures Step(config, state, Receive(bus, packet))
         == state.(reported := state.reported + [Reported(id, UnknownError, packet)])
  {
    hide Step, CcsdsFormat.Judge;
    CcsdsFormat.SizeOnTheWire(config.expectType, packet);
    RejectionIsReported(config, state, bus, packet, id, 0);
  }

  lemma WrongStrictSizeIsReported(config: Config, state: State, bus: nat, packet: seq<byte>, id: nat)
    requires config.Valid() && |state.counts| == |config.busToPacketizerCfg| && bus < |state.counts|
    requires config.busToPacketizerCfg[bus] == StrictCcsds && state.callback == Callback(id)
    requires |packet| >= 9
    requires |packet| != 6 + packet[4] as nat * 256 + packet[5] as nat + 1
    ensures Step(config, state, Receive(bus, packet))
         == state.(reported := state.reported + [Reported(id, IncorrectPacketSize, packet)])
  {
    hide Step, CcsdsFormat.Judge;
    CcsdsFormat.SizeOnTheWire(config.expectType, packet);
    RejectionIsReported(config, state, bus, packet, id, 3);
  }

  lemma WrongChecksumIsReported(config: Config, state: State, bus: nat, packet: seq<byte>, id: nat)
    requires config.Valid() && |state.counts| == |config.busToPacketizerCfg| && bus < |state.counts|
    requires config.busToPacketizerCfg[bus] == StrictCcsds && state.callback == Callback(id)
    requires |packet| >= 9
    requires |packet| == 6 + packet[4] as nat * 256 + packet[5] as nat + 1
    requires packet[|packet| - 2] == 0 || packet[|packet| - 1] == 0
             || IsoChecksum.Sum(packet) % 255 != 0 || IsoChecksum.WeightedSum(packet) % 255 != 0
    ensures Step(config, state, Receive(bus, packet))
         == state.(reported := state.reported + [Reported(id, IncorrectCrc16, packet)])
  {
    hide Step, CcsdsFormat.Judge, IsoChecksum.Sum, IsoChecksum.WeightedSum;
    CcsdsFormat.SizeOnTheWire(config.expectType, packet);
    CcsdsFormat.CheckOnTheWire(config.expectType, packet);
    RejectionIsReported(config, state, bus, packet, id, 1);
  }

  lemma WrongStrictTypeIsReported(config: Config, state: State, bus: nat, packet: seq<byte>, id: nat)
    requires config.Valid() && |state.counts| == |config.busToPacketizerCfg| && bus < |state.counts|
    requires config.busToPacketizerCfg[bus] == StrictCcsds && state.callback == Callback(id)
    requires |packet| >= 9
    requires |packet| == 6 + packet[4] as nat * 256 + packet[5] as nat + 1
    requires packet[|packet| - 2] != 0 && packet[|packet| - 1] != 0
    requires IsoChecksum.Sum(packet) % 255 == 0 && IsoChecksum.WeightedSum(packet) % 255 == 0
    requires packet[0] & 0x10 != if config.expectType.Telecommand? then 0x10 else 0x00
    ensures Step(config, state, Receive(bus, packet))
         == state.(reported := state.reported + [Reported(id, IncorrectPacketType, packet)])
  {
    hide Step, CcsdsFormat.Judge, IsoChecksum.Sum, IsoChecksum.WeightedSum, CcsdsFormat.ReadDestination;
    CcsdsFormat.SizeOnTheWire(config.expectType, packet);
    CcsdsFormat.CheckOnTheWire(config.expectType, packet);
    CcsdsFormat.TypeOnTheWire(config.expectType, packet);
    RejectionIsReported(config, state, bus, packet, id, 2);
  }

  lemma SoundStrictPacketIsDelivered(config: Config, state: State, bus: nat, packet: seq<byte>)
    requires config.Valid() && |state.counts| == |config.busToPacketizerCfg| && bus < |state.counts|
    requires config.busToPacketizerCfg[bus] == StrictCcsds
    requires |packet| >= 9
    requires |packet| == 6 + packet[4] as nat * 256 + packet[5] as nat + 1
    requires packet[|packet| - 2] != 0 && packet[|packet| - 1] != 0
    requires IsoChecksum.Sum(packet) % 255 == 0 && IsoChecksum.WeightedSum(packet) % 255 == 0
    requires packet[0] & 0x10 == if config.expectType.Telecommand? then 0x10 else 0x00
    ensures Step(config, state, Receive(bus, packet))
         == state.(delivered := state.delivered
                                + [Delivered(((packet[0] & 0x07) as bv16 << 8) | packet[1] as bv16, 0,
                                             packet[6..|packet| - 2])])
  {
    hide Step, CcsdsFormat.Judge, IsoChecksum.Sum, IsoChecksum.WeightedSum, CcsdsFormat.ReadDestination;
    CcsdsFormat.SizeOnTheWire(config.expectType, packet);
    CcsdsFormat.CheckOnTheWire(config.expectType, packet);
    CcsdsFormat.TypeOnTheWire(config.expectType, packet);
    CcsdsFormat.FieldsOnTheWire(config.expectType, packet);
    AcceptanceIsDelivered(config, state, bus, packet, CcsdsFormat.Judge(config.expectType, packet));
  }

  // ---------------------------------------------------------------- reports and deliveries of the thin format

  /** Without a whole header the packetizer stores no code, so the error is unknown. */
  lemma TooSmallThinIsUnknown(config: Config, state: State, bus: nat, packet: seq<byte>, id: nat)
    requires config.Valid() && |state.counts| == |config.busToPacketizerCfg| && bus < |state.counts|
    requires config.busToPacketizerCfg[bus] == Thin && state.callback == Callback(id)
    requires |packet| < 4
    ensures Step(config, state, Receive(bus, packet))
         == state.(reported := state.reported + [Reported(id, UnknownError, packet)])
  {
    hide Step, ThinPacketizer.Judge;
    ThinPacketizer.DecisionOnTheWire(packet);
    RejectionIsReported(config, state, bus, packet, id, 0);
  }

  lemma WrongThinSizeIsReported(config: Config, state: State, bus: nat, packet: seq<byte>, id: nat)
    requires config.Valid() && |state.counts| == |config.busToPacketizerCfg| && bus < |state.counts|
    requires config.busToPacketizerCfg[bus] == Thin && state.callback == Callback(id)
    requires |packet| >= 4
    requires var high, low := packet[2] as nat, packet[3] as nat;
             |packet| != 4 + (high * 256 + low + 1 - (if low == 255 && high % 2 == 1 then 256 else 0))
    ensures Step(config, state, Receive(bus, packet))
         == state.(reported := state.reported + [Reported(id, IncorrectPacketSize, packet)])
  {
    hide Step, ThinPacketizer.Judge;
    ThinPacketizer.DecisionOnTheWire(packet);
    RejectionIsReported(config, state, bus, packet, id, 3);
  }

  lemma SoundThinPacketIsDelivered(config: Config, state: State, bus: nat, packet: seq<byte>)
    requires config.Valid() && |state.counts| == |config.busToPacketizerCfg| && bus < |state.counts|
    requires config.busToPacketizerCfg[bus] == Thin
    requires |packet| >= 4
    requires var high, low := packet[2] as nat, packet[3] as nat;
             |packet| == 4 + (high * 256 + low + 1 - (if low == 255 && high % 2 == 1 then 256 else 0))
    ensures Step(config, state, Receive(bus, packet))
         == state.(delivered := state.delivered
                                + [Delivered((packet[0] as bv16 << 8) | packet[1] as bv16, 0,
                                             packet[4..|packet|])])
  {
    hide Step, ThinPacketizer.Judge;
    ThinPacketizer.SizeOnTheWire(packet);
    ThinPacketizer.FieldsOnTheWire(packet);
    AcceptanceIsDelivered(config, state, bus, packet, ThinPacketizer.Judge(packet));
  }
}
