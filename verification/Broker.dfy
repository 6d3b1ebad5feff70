/**
 * The broker as the code runs it: one packetizer state per bus, one packet buffer shared by all of them,
 * dispatch on the packetizer configured for the bus. Each call runs under the broker lock, so it is one
 * atomic step. Drivers, interfaces and the error callback are logs of what they were given.
 */
module Brokers {
  import opened Bytes
  import opened SpacePacket
  import opened BrokerModel
  import PacketFormat
  import CcsdsFormat
  import DefaultPacketizer
  import CcsdsPacketizer
  import ThinPacketizer

  /** The header size in the packetizer function table. */
  function HeaderSize(cfg: PacketizerCfg): nat {
    match cfg
    case StrictCcsds => CCSDS_HEADER_SIZE
    case Thin => THIN_HEADER_SIZE
    case _ => HEADER_SIZE
  }

  lemma {:induction false} ListedBusesAppend(validBuses: seq<nat>, bus: nat, buses: nat)
    requires BUS_INVALID_ID !in validBuses
    ensures ListedBuses(validBuses + [bus], buses)
         == ListedBuses(validBuses, buses) + (if bus != BUS_INVALID_ID && bus < buses then {bus} else {})
    decreases |validBuses|
  {
    if validBuses == [] {
      assert validBuses + [bus] == [bus];
      assert ListedBuses([bus][1..], buses) == {};
    } else {
      assert (validBuses + [bus])[1..] == validBuses[1..] + [bus];
      ListedBusesAppend(validBuses[1..], bus, buses);
    }
  }

  lemma NoBusesListed(buses: nat)
    ensures ListedBuses([], buses) == {}
  {
  }

  lemma {:induction false} ListedBusesEnd(validBuses: seq<nat>, i: nat, buses: nat)
    requires i < |validBuses| && validBuses[i] == BUS_INVALID_ID && BUS_INVALID_ID !in validBuses[..i]
    ensures ListedBuses(validBuses, buses) == ListedBuses(validBuses[..i], buses)
    decreases i
  {
    if i > 0 {
      assert validBuses[..i][1..] == validBuses[1..][..i - 1];
      assert validBuses[..i][0] == validBuses[0];
      ListedBusesEnd(validBuses[1..], i - 1, buses);
    }
  }

  lemma DataFits(config: Config, cfg: PacketizerCfg, dataSize: nat)
    requires AdmitsSize(config, cfg, dataSize)
    ensures HeaderSize(cfg) + dataSize <= HEADER_SIZE + config.partitionBufferSize
  {
  }

  lemma CountersAreReset(config: Config, before: State, after: State, validBuses: seq<nat>)
    requires config.Valid() && |validBuses| == |config.busToPacketizerCfg| == |before.counts| == |after.counts|
    requires after == before.(counts := after.counts)
    requires forall bus :: 0 <= bus < |after.counts| ==>
               after.counts[bus] == if Resets(config, Event.Initialize(validBuses), bus) then 0 else before.counts[bus]
    ensures after == Step(config, before, Event.Initialize(validBuses))
  {
    hide Resets;
  }

  lemma SliceOfPrefix<T>(s: seq<T>, length: nat, from: nat, to: nat)
    requires from <= to <= length <= |s|
    ensures s[..length][from..to] == s[from..to]
  {
  }

  class Broker {
    const config: Config
    const packetizersData: seq<Packetizer>
    const packetizerBuffer: array<byte>
    var sent: seq<Sent>
    var delivered: seq<Delivered>
    var reported: seq<Reported>
    var callback: Callback

    predicate Valid()
      reads packetizersData
    {
      && config.Valid()
      && |packetizersData| == |config.busToPacketizerCfg|
      && (forall i, j :: 0 <= i < |packetizersData| && 0 <= j < |packetizersData| && i != j ==>
            packetizersData[i] != packetizersData[j])
      && (forall i :: 0 <= i < |packetizersData| ==> packetizersData[i].packetSequenceCount <= MAX_SEQUENCE_COUNT)
      && packetizerBuffer.Length == HEADER_SIZE + config.partitionBufferSize + SENDER_PID_SIZE + ERROR_CONTROL_SIZE
    }

    function Counts(): (counts: seq<bv16>)
      reads packetizersData
      ensures |counts| == |packetizersData|
      ensures forall i :: 0 <= i < |counts| ==> counts[i] == packetizersData[i].packetSequenceCount
    {
      seq(|packetizersData|, i requires 0 <= i < |packetizersData| reads packetizersData =>
            packetizersData[i].packetSequenceCount)
    }

    function Abs(): State
      reads this, packetizersData
    {
      State(Counts(), sent, delivered, reported, callback)
    }

    /** Static storage: counters start at zero and no callback is registered. */
    constructor (config: Config, packetizers: seq<Packetizer>)
      requires config.Valid() && |packetizers| == |config.busToPacketizerCfg|
      requires forall i, j :: 0 <= i < j < |packetizers| ==> packetizers[i] != packetizers[j]
      requires forall i :: 0 <= i < |packetizers| ==> packetizers[i].packetSequenceCount == 0
      ensures Valid() && this.config == config && packetizersData == packetizers && fresh(packetizerBuffer)
      ensures Abs() == State(seq(|packetizers|, _ => 0), [], [], [], NoCallback)
    {
      this.config := config;
      packetizersData := packetizers;
      packetizerBuffer := new byte[HEADER_SIZE + config.partitionBufferSize + SENDER_PID_SIZE + ERROR_CONTROL_SIZE];
      sent, delivered, reported, callback := [], [], [], NoCallback;
    }

    /** Resets the counter of every listed bus whose packetizer has one; no other bus is touched. */
    method Initialize(validBuses: seq<nat>)
      requires Valid() && |validBuses| == |packetizersData|
      modifies packetizersData
      ensures Valid()
      ensures Abs() == Step(config, old(Abs()), Event.Initialize(validBuses))
    {
      hide ListedBuses, Step;
      var buses := |packetizersData|;
      NoBusesListed(buses);
      assert validBuses[..0] == [];
      ghost var reset: set<nat> := {};
      for i := 0 to buses
        invariant Valid() && BUS_INVALID_ID !in validBuses[..i]
        invariant reset == ListedBuses(validBuses[..i], buses)
        invariant forall bus :: 0 <= bus < buses ==>
                    packetizersData[bus].packetSequenceCount
                    == if bus in reset && config.busToPacketizerCfg[bus] != Thin
                       then 0 else old(packetizersData[bus].packetSequenceCount)
      {
        var busId := validBuses[i];
        if busId == BUS_INVALID_ID {
          ListedBusesEnd(validBuses, i, buses);
          CountersAreReset(config, old(Abs()), Abs(), validBuses);
          return;
        }
        ListedBusesAppend(validBuses[..i], busId, buses);
        assert validBuses[..i + 1] == validBuses[..i] + [busId];
        if busId < buses {
          reset := reset + {busId};
          if config.busToPacketizerCfg[busId] != Thin {
            packetizersData[busId].packetSequenceCount := 0;
          }
        }
      }
      assert validBuses[..buses] == validBuses;
      CountersAreReset(config, old(Abs()), Abs(), validBuses);
    }

    /** Packetizes the data on the bus of the interface and hands the packet to the bus driver. */
    method DeliverRequest(interface: bv16, senderPid: bv16, data: array<byte>, length: nat)
      requires Valid() && length <= data.Length && data != packetizerBuffer
      requires Admits(config, Request(interface, senderPid, data[..length]))
      modifies this, packetizerBuffer, packetizersData
      ensures Valid()
      ensures Abs() == Step(config, old(Abs()), Request(interface, senderPid, data[..length]))
    {
      hide BuildPacket, NextBusCount, HeaderSize, AdmitsSize;
      var busId := Lookup(config.portToBus, interface);
      var packetizerType := config.busToPacketizerCfg[busId];
      var headerSize := HeaderSize(packetizerType);
      DataFits(config, packetizerType, length);
      forall i | 0 <= i < length {
        packetizerBuffer[headerSize + i] := data[i];
      }
      assert packetizerBuffer[headerSize..headerSize + length] == data[..length];
      var packetSize := PacketizeOn(busId, interface, senderPid, headerSize, length);
      sent := sent + [Sent(busId, packetizerBuffer[..packetSize])];
    }

    /** Calls the packetizer of the bus through the function table. */
    method PacketizeOn(busId: nat, interface: bv16, senderPid: bv16, headerSize: nat, length: nat)
        returns (packetSize: nat)
      requires Valid() && busId < |packetizersData| && interface <= MAX_APID
      requires AdmitsSize(config, config.busToPacketizerCfg[busId], length)
      requires headerSize == HeaderSize(config.busToPacketizerCfg[busId])
      modifies packetizerBuffer, packetizersData[busId]
      ensures Valid() && packetSize <= packetizerBuffer.Length
      ensures packetizerBuffer[..packetSize]
           == BuildPacket(config.busToPacketizerCfg[busId], config.sendType, old(Counts())[busId], interface, senderPid,
                          old(packetizerBuffer[headerSize..headerSize + length]))
      ensures Counts() == old(Counts())[busId := NextBusCount(config.busToPacketizerCfg[busId], old(Counts())[busId])]
    {
      hide PacketFormat.Packet, CcsdsFormat.Packet, ThinPacketizer.Packet, NextCount;
      var self := packetizersData[busId];
      match config.busToPacketizerCfg[busId] {
        case StrictCcsds =>
          packetSize :=
            CcsdsPacketizer.Packetize(self, config.sendType, interface, packetizerBuffer, headerSize, length);
        case Thin =>
          packetSize := ThinPacketizer.Packetize(interface, packetizerBuffer, headerSize, length);
        case _ =>
          packetSize := DefaultPacketizer.Packetize(self, config.sendType, senderPid, interface, packetizerBuffer,
                                                    headerSize, length);
      }
    }

    /** Takes a packet from a bus driver: delivers its data, or reports the error if anyone listens. */
    method ReceivePacket(busId: nat, data: array<byte>, length: nat)
      requires Valid() && length <= data.Length && Admits(config, Receive(busId, data[..length]))
      modifies this
      ensures Valid()
      ensures Abs() == Step(config, old(Abs()), Receive(busId, data[..length]))
    {
      hide JudgePacket, ToBrokerError;
      var verdict := DepacketizeOn(busId, data, length);
      AcceptedDataIsInside(config.busToPacketizerCfg[busId], config.expectType, data[..length]);
      if verdict.Rejected? {
        if callback.Callback? {
          reported := reported + [Reported(callback.id, ToBrokerError(verdict.errorCode), data[..length])];
        }
        return;
      }
      var from, to := verdict.dataOffset, verdict.dataOffset + verdict.dataSize;
      SliceOfPrefix(data[..], length, from, to);
      delivered := delivered + [Delivered(verdict.destination, verdict.source, data[from..to])];
    }

    method DepacketizeOn(busId: nat, data: array<byte>, length: nat) returns (verdict: Verdict)
      requires length <= data.Length && busId < |config.busToPacketizerCfg|
      ensures verdict == JudgePacket(config.busToPacketizerCfg[busId], config.expectType, data[..length])
    {
      hide PacketFormat.Judge, CcsdsFormat.Judge, ThinPacketizer.Judge;
      match config.busToPacketizerCfg[busId] {
        case StrictCcsds => verdict := CcsdsPacketizer.Depacketize(config.expectType, data, length);
        case Thin => verdict := ThinPacketizer.Depacketize(data, length);
        case _ => verdict := DefaultPacketizer.Depacketize(config.expectType, data, length);
      }
    }

    /** The latest callback replaces the one before. */
    method RegisterErrorCallback(callback: Callback)
      requires Valid()
      modifies this
      ensures Valid()
      ensures Abs() == Step(config, old(Abs()), Register(callback))
    {
      this.callback := callback;
    }
  }
}
