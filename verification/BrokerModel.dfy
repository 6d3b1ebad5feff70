/**
 * What the broker does, as a machine on initialisations, requests and received packets: the packets it
 * sends, the data it delivers, the errors it reports and the sequence counter of every bus. Broker.dfy
 * proves the code against this machine.
 */
module BrokerModel {
  import opened Bytes
  import opened SpacePacket
  import PacketFormat
  import CcsdsFormat
  import ThinPacketizer

  /** PACKETIZER_DEFAULT and PACKETIZER_CCSDS use the same functions. */
  datatype PacketizerCfg = Default | Ccsds | StrictCcsds | Thin

  datatype BrokerError = UnknownError | IncorrectCrc16 | IncorrectPacketType | IncorrectPacketSize | PacketTooSmall

  /** The generated tables and build-time choices of one node. */
  datatype Config = Config(
    busToPacketizerCfg: seq<PacketizerCfg>,
    portToBus: map<bv16, nat>,
    partitionBufferSize: nat,
    sendType: PacketType,
    expectType: PacketType)
  {
    predicate Valid() {
      forall interface :: interface in portToBus ==>
        Lookup(portToBus, interface) < |busToPacketizerCfg| && interface <= MAX_APID
    }
  }

  datatype Sent = Sent(bus: nat, packet: seq<byte>)
  datatype Delivered = Delivered(interface: bv16, sender: bv16, data: seq<byte>)
  datatype Reported = Reported(callback: nat, error: BrokerError, data: seq<byte>)

  /** The error callback, a function pointer that may be null. */
  datatype Callback = NoCallback | Callback(id: nat)

  /** The counters, everything handed to drivers, interfaces and error callbacks, and the callback registered last. */
  datatype State = State(
    counts: seq<bv16>,
    sent: seq<Sent>,
    delivered: seq<Delivered>,
    reported: seq<Reported>,
    callback: Callback)

  datatype Event =
    | Initialize(validBuses: seq<nat>)
    | Request(interface: bv16, sender: bv16, data: seq<byte>)
    | Receive(bus: nat, packet: seq<byte>)
    | Register(callback: Callback)

  // ---------------------------------------------------------------- one call

  const BUS_INVALID_ID := 0

  /** The buses an initialisation list names: everything before the first invalid entry that is a bus at all. */
  function ListedBuses(validBuses: seq<nat>, buses: nat): set<nat> {
    if validBuses == [] || validBuses[0] == BUS_INVALID_ID then {}
    else (if validBuses[0] < buses then {validBuses[0]} else {}) + ListedBuses(validBuses[1..], buses)
  }

  /** The listed buses are those with an entry such that neither it nor an earlier one is 0. */
  lemma {:induction false} ListedExactly(validBuses: seq<nat>, buses: nat, bus: nat)
    ensures bus in ListedBuses(validBuses, buses)
       <==> bus < buses && exists j :: 0 <= j < |validBuses| && validBuses[j] == bus && 0 !in validBuses[..j + 1]
    decreases |validBuses|
  {
    if validBuses != [] && validBuses[0] != 0 {
      var rest := validBuses[1..];
      ListedExactly(rest, buses, bus);
      hide ListedBuses;
      if j :| 0 <= j < |rest| && rest[j] == bus && 0 !in rest[..j + 1] {
        ListedLater(validBuses, j);
        assert validBuses[j + 1] == bus;
      }
      if j :| 0 <= j < |validBuses| && validBuses[j] == bus && 0 !in validBuses[..j + 1] && j > 0 {
        ListedLater(validBuses, j - 1);
        assert rest[j - 1] == bus;
      }
      ListedFirst(validBuses, buses);
      assert validBuses[..0 + 1] == [validBuses[0]];
    }
  }

  lemma ListedLater(validBuses: seq<nat>, j: nat)
    requires j + 1 < |validBuses| && validBuses[0] != 0
    ensures 0 in validBuses[1..][..j + 1] <==> 0 in validBuses[..(j + 1) + 1]
  {
    assert validBuses[..j + 2] == [validBuses[0]] + validBuses[1..][..j + 1];
  }

  lemma ListedFirst(validBuses: seq<nat>, buses: nat)
    requires validBuses != [] && validBuses[0] != 0
    ensures ListedBuses(validBuses, buses)
         == (if validBuses[0] < buses then {validBuses[0]} else {}) + ListedBuses(validBuses[1..], buses)
  {
  }

  /** The event initialises the bus and its packetizer has a counter to reset. */
  predicate Resets(config: Config, event: Event, bus: nat)
    requires bus < |config.busToPacketizerCfg|
  {
    && event.Initialize? && bus in ListedBuses(event.validBuses, |config.busToPacketizerCfg|)
    && config.busToPacketizerCfg[bus] != Thin
  }

  /** The requests a packetizer's assertions and the shared buffer admit. */
  predicate AdmitsSize(config: Config, cfg: PacketizerCfg, dataSize: nat) {
    && dataSize <= config.partitionBufferSize
    && match cfg
       case StrictCcsds => 1 <= dataSize < CCSDS_MAX_PACKET_DATA_SIZE
       case Thin => 1 <= dataSize < MAX_PACKET_DATA_SIZE
       case _ => dataSize < MAX_PACKET_DATA_SIZE
  }

  predicate Admits(config: Config, event: Event) {
    match event
    case Initialize(validBuses) => |validBuses| == |config.busToPacketizerCfg|
    case Request(interface, _, data) =>
      && interface in config.portToBus && Lookup(config.portToBus, interface) < |config.busToPacketizerCfg|
      && AdmitsSize(config, config.busToPacketizerCfg[Lookup(config.portToBus, interface)], |data|)
    case Receive(bus, packet) => bus < |config.busToPacketizerCfg|
    case Register(_) => true
  }

  function BuildPacket(cfg: PacketizerCfg, packetType: PacketType, count: bv16, interface: bv16, sender: bv16,
                       data: seq<byte>): seq<byte>
    requires cfg == Thin ==> data != []
  {
    match cfg
    case StrictCcsds => CcsdsFormat.Packet(packetType, interface, count, data)
    case Thin => ThinPacketizer.Packet(interface, data)
    case _ => PacketFormat.Packet(packetType, sender, interface, count, data)
  }

  function NextBusCount(cfg: PacketizerCfg, count: bv16): bv16 {
    if cfg == Thin then count else NextCount(count)
  }

  function JudgePacket(cfg: PacketizerCfg, packetType: PacketType, packet: seq<byte>): Verdict {
    match cfg
    case StrictCcsds => CcsdsFormat.Judge(packetType, packet)
    case Thin => ThinPacketizer.Judge(packet)
    case _ => PacketFormat.Judge(packetType, packet)
  }

  function ToBrokerError(errorCode: nat): BrokerError {
    if errorCode == INCORRECT_CHECKSUM then IncorrectCrc16
    else if errorCode == INCORRECT_PACKET_TYPE then IncorrectPacketType
    else if errorCode == INCORRECT_PACKET_SIZE then IncorrectPacketSize
    else if errorCode == PACKET_TOO_SMALL then PacketTooSmall
    else UnknownError
  }

  /** An accepted packet's data lies inside the packet. */
  lemma AcceptedDataIsInside(cfg: PacketizerCfg, packetType: PacketType, packet: seq<byte>)
    ensures var verdict := JudgePacket(cfg, packetType, packet);
            verdict.Accepted? ==> verdict.dataOffset + verdict.dataSize <= |packet|
  {
    hide PacketFormat.HasCheckValue, PacketFormat.IsOfType, CcsdsFormat.HasChecksum, CcsdsFormat.IsOfType,
         PacketFormat.ReadDestination, CcsdsFormat.ReadDestination, Word, PacketFormat.ReadLength,
         CcsdsFormat.ReadLength, ThinPacketizer.ReadLength;
  }

  function Step(config: Config, state: State, event: Event): (after: State)
    requires config.Valid() && |state.counts| == |config.busToPacketizerCfg| && Admits(config, event)
    ensures |after.counts| == |config.busToPacketizerCfg|
  {
    match event
    case Initialize(_) =>
      state.(counts := seq(|state.counts|, i requires 0 <= i < |state.counts| =>
                             if Resets(config, event, i) then 0 else state.counts[i]))
    case Request(interface, sender, data) =>
      var bus := Lookup(config.portToBus, interface);
      var cfg := config.busToPacketizerCfg[bus];
      var packet := BuildPacket(cfg, config.sendType, state.counts[bus], interface, sender, data);
      state.(counts := state.counts[bus := NextBusCount(cfg, state.counts[bus])],
             sent := state.sent + [Sent(bus, packet)])
    case Receive(bus, packet) =>
      var verdict := JudgePacket(config.busToPacketizerCfg[bus], config.expectType, packet);
      AcceptedDataIsInside(config.busToPacketizerCfg[bus], config.expectType, packet);
      if verdict.Accepted? then
        var data := packet[verdict.dataOffset..verdict.dataOffset + verdict.dataSize];
        state.(delivered := state.delivered + [Delivered(verdict.destination, verdict.source, data)])
      else if state.callback.Callback? then
        state.(reported := state.reported + [Reported(state.callback.id, ToBrokerError(verdict.errorCode), packet)])
      else state
    case Register(callback) =>
      state.(callback := callback)
  }

  predicate AdmitsAll(config: Config, events: seq<Event>) {
    forall i :: 0 <= i < |events| ==> Admits(config, events[i])
  }

  function Run(config: Config, state: State, events: seq<Event>): (after: State)
    requires config.Valid() && |state.counts| == |config.busToPacketizerCfg| && AdmitsAll(config, events)
    ensures |after.counts| == |config.busToPacketizerCfg|
    decreases |events|
  {
    if events == [] then state else Run(config, Step(config, state, events[0]), events[1..])
  }

  lemma {:induction false} RunAppend(config: Config, state: State, a: seq<Event>, b: seq<Event>)
    requires config.Valid() && |state.counts| == |config.busToPacketizerCfg| && AdmitsAll(config, a + b)
    ensures AdmitsAll(config, a) && AdmitsAll(config, b)
    ensures Run(config, state, a + b) == Run(config, Run(config, state, a), b)
    decreases |a|
  {
    hide Step, Admits;
    assert forall i :: 0 <= i < |a| ==> a[i] == (a + b)[i];
    assert forall i :: 0 <= i < |b| ==> b[i] == (a + b)[|a| + i];
    if a == [] {
      assert a + b == b;
    } else {
      assert (a + b)[1..] == a[1..] + b;
      RunAppend(config, Step(config, state, a[0]), a[1..], b);
    }
  }

  // ---------------------------------------------------------------- buses are numbered independently

  function SentOn(sent: seq<Sent>, bus: nat): seq<seq<byte>> {
    if sent == [] then []
    else
      var rest := SentOn(sent[..|sent| - 1], bus);
      if sent[|sent| - 1].bus == bus then rest + [sent[|sent| - 1].packet] else rest
  }

  /** The requests among the events that go out on `bus`, in order. */
  function RequestsOn(config: Config, events: seq<Event>, bus: nat): (requests: seq<Event>)
    requires AdmitsAll(config, events)
    ensures AdmitsAll(config, requests)
    ensures forall i :: 0 <= i < |requests| ==>
              requests[i].Request? && Lookup(config.portToBus, requests[i].interface) == bus
    decreases |events|
  {
    if events == [] then []
    else
      var rest := RequestsOn(config, events[1..], bus);
      if events[0].Request? && Lookup(config.portToBus, events[0].interface) == bus then [events[0]] + rest else rest
  }

  predicate IsRequestOn(config: Config, event: Event, bus: nat) {
    Admits(config, event) && event.Request? && Lookup(config.portToBus, event.interface) == bus
  }

  /** The packet a request becomes when the bus counter stands at `count`. */
  function PacketOf(config: Config, bus: nat, count: bv16, request: Event): seq<byte>
    requires bus < |config.busToPacketizerCfg| && IsRequestOn(config, request, bus)
  {
    BuildPacket(config.busToPacketizerCfg[bus], config.sendType, count, request.interface, request.sender, request.data)
  }

  /** The packets the events send on one bus, from a counter value on. */
  function PacketsOn(config: Config, bus: nat, count: bv16, events: seq<Event>): (packets: seq<seq<byte>>)
    requires bus < |config.busToPacketizerCfg| && AdmitsAll(config, events)
    ensures |packets| == |RequestsOn(config, events, bus)|
    decreases |events|
  {
    if events == [] then []
    else if IsRequestOn(config, events[0], bus) then
      [PacketOf(config, bus, count, events[0])]
      + PacketsOn(config, bus, NextBusCount(config.busToPacketizerCfg[bus], count), events[1..])
    else PacketsOn(config, bus, if Resets(config, events[0], bus) then 0 else count, events[1..])
  }

  lemma SentOnLast(sent: seq<Sent>, last: Sent, bus: nat)
    ensures SentOn(sent + [last], bus)
         == if last.bus == bus then SentOn(sent, bus) + [last.packet] else SentOn(sent, bus)
  {
    assert (sent + [last])[..|sent|] == sent;
  }

  /**
   * Whatever happens in between, on other buses or as received packets, a bus sends exactly the packets of
   * its own requests, numbered from its own counter.
   */
  lemma {:induction false} BusesAreIndependent(config: Config, state: State, events: seq<Event>, bus: nat)
    requires config.Valid() && |state.counts| == |config.busToPacketizerCfg| && bus < |state.counts|
    requires AdmitsAll(config, events)
    ensures SentOn(Run(config, state, events).sent, bus)
         == SentOn(state.sent, bus) + PacketsOn(config, bus, state.counts[bus], events)
    decreases |events|
  {
    hide PacketOf, NextBusCount, Step, Resets, RequestsOn, SentOn, ListedBuses;
    if events != [] {
      var next := Step(config, state, events[0]);
      StepOnBus(config, state, events[0], bus);
      BusesAreIndependent(config, next, events[1..], bus);
      if IsRequestOn(config, events[0], bus) {
        var packet := PacketOf(config, bus, state.counts[bus], events[0]);
        var later := PacketsOn(config, bus, next.counts[bus], events[1..]);
        assert (SentOn(state.sent, bus) + [packet]) + later == SentOn(state.sent, bus) + ([packet] + later);
      }
    }
  }

  /** One event as a bus sees it: its own request, its initialisation, or nothing. */
  lemma StepOnBus(config: Config, state: State, event: Event, bus: nat)
    requires config.Valid() && |state.counts| == |config.busToPacketizerCfg| && bus < |state.counts|
    requires Admits(config, event)
    ensures var next := Step(config, state, event);
            if IsRequestOn(config, event, bus) then
              && SentOn(next.sent, bus) == SentOn(state.sent, bus) + [PacketOf(config, bus, state.counts[bus], event)]
              && next.counts[bus] == NextBusCount(config.busToPacketizerCfg[bus], state.counts[bus])
            else
              && SentOn(next.sent, bus) == SentOn(state.sent, bus)
              && next.counts[bus] == if Resets(config, event, bus) then 0 else state.counts[bus]
  {
    hide BuildPacket, NextBusCount, JudgePacket, AdmitsSize, ListedBuses;
    if event.Request? {
      var next := Step(config, state, event);
      SentOnLast(state.sent, next.sent[|state.sent|], bus);
    }
  }

  // ---------------------------------------------------------------- sequence numbers

  /** The sequence count a packet carries in its header. */
  function CountIn(cfg: PacketizerCfg, packet: seq<byte>): bv16
    requires cfg != Thin && |packet| >= 4
  {
    if cfg == StrictCcsds then CcsdsFormat.ReadCount(packet[2], packet[3])
    else PacketFormat.ReadCount(packet[2], packet[3])
  }

  lemma BuiltCount(cfg: PacketizerCfg, packetType: PacketType, count: bv16, interface: bv16, sender: bv16,
                   data: seq<byte>)
    requires cfg != Thin && count <= MAX_SEQUENCE_COUNT
    ensures var packet := BuildPacket(cfg, packetType, count, interface, sender, data);
            |packet| >= 4 && CountIn(cfg, packet) == count
  {
    hide PacketFormat.Packet, CcsdsFormat.Packet, PacketFormat.ReadCount, CcsdsFormat.ReadCount;
    if cfg == StrictCcsds {
      CcsdsFormat.PacketCount(packetType, interface, count, data);
    } else {
      PacketFormat.PacketCount(packetType, sender, interface, count, data);
    }
  }

  /** No event initialises the bus. */
  predicate NeverResets(config: Config, events: seq<Event>, bus: nat)
    requires bus < |config.busToPacketizerCfg|
  {
    forall i :: 0 <= i < |events| ==> !Resets(config, events[i], bus)
  }

  lemma {:induction false} PacketsAreCounted(config: Config, bus: nat, before: nat, events: seq<Event>, k: nat)
    requires bus < |config.busToPacketizerCfg| && config.busToPacketizerCfg[bus] != Thin
    requires AdmitsAll(config, events) && NeverResets(config, events, bus)
    requires k < |RequestsOn(config, events, bus)|
    ensures PacketsOn(config, bus, CountAfter(before), events)[k]
         == PacketOf(config, bus, CountAfter(before + k), RequestsOn(config, events, bus)[k])
    decreases |events|
  {
    hide PacketOf, NextCount, Resets, AdmitsSize;
    if events != [] {
      var rest := RequestsOn(config, events[1..], bus);
      if !IsRequestOn(config, events[0], bus) {
        PacketsAreCounted(config, bus, before, events[1..], k);
      } else if k > 0 {
        assert RequestsOn(config, events, bus)[k] == rest[k - 1];
        assert NextBusCount(config.busToPacketizerCfg[bus], CountAfter(before)) == CountAfter(before + 1);
        PacketsAreCounted(config, bus, before + 1, events[1..], k - 1);
      }
    }
  }

  /** After the earlier packets of a bus, the k-th is the k-th request and carries sequence count k modulo 2^14. */
  predicate NumberedFromZero(config: Config, bus: nat, earlier: seq<seq<byte>>, requests: seq<Event>,
                             packets: seq<seq<byte>>)
    requires bus < |config.busToPacketizerCfg| && config.busToPacketizerCfg[bus] != Thin
    requires forall i :: 0 <= i < |requests| ==> IsRequestOn(config, requests[i], bus)
  {
    && |packets| == |earlier| + |requests| && packets[..|earlier|] == earlier
    && forall k :: 0 <= k < |requests| ==>
         && packets[|earlier| + k] == PacketOf(config, bus, CountAfter(k), requests[k])
         && |packets[|earlier| + k]| >= 4
         && CountIn(config.busToPacketizerCfg[bus], packets[|earlier| + k]) as nat == k % 16384
  }

  lemma CountedFromZero(config: Config, state: State, events: seq<Event>, bus: nat)
    requires config.Valid() && |state.counts| == |config.busToPacketizerCfg| && bus < |state.counts|
    requires config.busToPacketizerCfg[bus] != Thin && state.counts[bus] == 0
    requires AdmitsAll(config, events) && NeverResets(config, events, bus)
    ensures NumberedFromZero(config, bus, SentOn(state.sent, bus), RequestsOn(config, events, bus),
                             SentOn(Run(config, state, events).sent, bus))
  {
    hide Run, SentOn, RequestsOn, BuildPacket, CountIn, PacketsOn, CountAfter, NeverResets;
    BusesAreIndependent(config, state, events, bus);
    var requests := RequestsOn(config, events, bus);
    FreshCount();
    forall k | 0 <= k < |requests|
      ensures var packet := PacketsOn(config, bus, 0, events)[k];
              && packet == PacketOf(config, bus, CountAfter(k), requests[k]) && |packet| >= 4
              && CountIn(config.busToPacketizerCfg[bus], packet) as nat == k % 16384
    {
      PacketsAreCounted(config, bus, 0, events, k);
      var cfg, request := config.busToPacketizerCfg[bus], requests[k];
      BuiltCount(cfg, config.sendType, CountAfter(k), request.interface, request.sender, request.data);
      CountAfterValue(k);
    }
  }

  lemma FreshCount()
    ensures CountAfter(0) == 0
  {
  }

  /**
   * Over any run, the k-th packet a bus sends after an initialisation that lists it, up to the next one, is
   * the k-th request for that bus since then, encoded with sequence count k modulo 2^14, whatever came before,
   * whatever the other buses send or have initialised, and whatever is received meanwhile.
   */
  lemma SequenceNumbers(config: Config, state: State, before: seq<Event>, validBuses: seq<nat>, events: seq<Event>,
                        bus: nat, j: nat)
    requires config.Valid() && |state.counts| == |config.busToPacketizerCfg| && bus < |state.counts|
    requires AdmitsAll(config, before + ([Initialize(validBuses)] + events))
    requires AdmitsAll(config, before) && AdmitsAll(config, events)
    requires config.busToPacketizerCfg[bus] in {Default, Ccsds, StrictCcsds}
    requires j < |validBuses| && validBuses[j] == bus && 0 !in validBuses[..j + 1]
    requires forall i, m :: 0 <= i < |events| && events[i].Initialize? && 0 <= m < |events[i].validBuses| ==>
               events[i].validBuses[m] == bus ==> 0 in events[i].validBuses[..m + 1]
    ensures NumberedFromZero(config, bus, SentOn(Run(config, state, before).sent, bus), RequestsOn(config, events, bus),
                             SentOn(Run(config, state, before + ([Initialize(validBuses)] + events)).sent, bus))
  {
    var initialisation := Initialize(validBuses);
    hide Step, SentOn, RequestsOn, NumberedFromZero, NeverResets, Resets, ListedBuses;
    ListedIsReset(config, validBuses, bus, j);
    NotListedNeverResets(config, events, bus);
    RunAppend(config, state, before, [initialisation] + events);
    var reached := Run(config, state, before);
    InitialisedFirst(config, reached, validBuses, events, bus);
    CountedFromZero(config, Step(config, reached, initialisation), events, bus);
  }

  lemma ListedIsReset(config: Config, validBuses: seq<nat>, bus: nat, j: nat)
    requires bus < |config.busToPacketizerCfg| && config.busToPacketizerCfg[bus] in {Default, Ccsds, StrictCcsds}
    requires j < |validBuses| && validBuses[j] == bus && 0 !in validBuses[..j + 1]
    ensures Resets(config, Initialize(validBuses), bus)
  {
    hide ListedBuses;
    ListedExactly(validBuses, |config.busToPacketizerCfg|, bus);
  }

  lemma NotListedNeverResets(config: Config, events: seq<Event>, bus: nat)
    requires bus < |config.busToPacketizerCfg|
    requires forall i, m :: 0 <= i < |events| && events[i].Initialize? && 0 <= m < |events[i].validBuses| ==>
               events[i].validBuses[m] == bus ==> 0 in events[i].validBuses[..m + 1]
    ensures NeverResets(config, events, bus)
  {
    hide ListedBuses;
    forall i | 0 <= i < |events| && events[i].Initialize?
      ensures bus !in ListedBuses(events[i].validBuses, |config.busToPacketizerCfg|)
    {
      ListedExactly(events[i].validBuses, |config.busToPacketizerCfg|, bus);
    }
  }

  lemma InitialisedFirst(config: Config, state: State, validBuses: seq<nat>, events: seq<Event>, bus: nat)
    requires config.Valid() && |state.counts| == |config.busToPacketizerCfg| && bus < |state.counts|
    requires AdmitsAll(config, [Initialize(validBuses)] + events) && AdmitsAll(config, events)
    requires Resets(config, Initialize(validBuses), bus)
    ensures Admits(config, Initialize(validBuses)) && config.busToPacketizerCfg[bus] != Thin
    ensures var next := Step(config, state, Initialize(validBuses));
            && Run(config, state, [Initialize(validBuses)] + events) == Run(config, next, events)
            && next.counts[bus] == 0 && next.sent == state.sent
  {
    hide ListedBuses;
    var all := [Initialize(validBuses)] + events;
    assert all[0] == Initialize(validBuses) && all[1..] == events;
    assert Admits(config, all[0]);
  }
}
