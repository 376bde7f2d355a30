/** What a copy of a capture does, told from the packets of its input alone: which calls it makes on the writer,
    packet by packet, and where and how it stops. */
module PcapngCopies {
  import opened Wrappers
  import opened Bytes
  import opened PcapngBlocks
  import opened PcapngWriter
  import opened PcapngReader
  import opened PcapngRoundTrip
  import opened PcapngFilter

  /** A packet of an input, and what the reader knew when it had read it. */
  datatype Moment = Moment(state: ReaderState, packet: Packet)

  function Moments(s: ReaderState, input: seq<Byte>): (all: seq<Moment>)
    decreases |input|
  {
    var next := NextPacket(s, input);
    match next.outcome
    case Err(_) => []
    case Ok(packet) => [Moment(next.state, packet)] + Moments(next.state, next.rest)
  }

  /** The interface ids of the first k packets. */
  function IdsBefore(all: seq<Moment>, k: nat): set<Uint32>
    requires k <= |all|
  {
    set j | 0 <= j < k :: all[j].packet.interfaceId
  }

  /** No packet before the i-th is on its interface. */
  predicate New(all: seq<Moment>, i: nat)
    requires i < |all|
  {
    all[i].packet.interfaceId !in IdsBefore(all, i)
  }

  lemma {:induction false} SomeFirst(all: seq<Moment>, i: nat)
    requires i < |all|
    ensures exists j :: 0 <= j <= i && New(all, j) && all[j].packet.interfaceId == all[i].packet.interfaceId
  {
    if !New(all, i) {
      var j :| 0 <= j < i && all[j].packet.interfaceId == all[i].packet.interfaceId;
      SomeFirst(all, j);
    }
  }

  /** The output interface of the i-th packet: as many as other interfaces came up before its own did. */
  ghost function OutputId(all: seq<Moment>, i: nat): Uint32
    requires i < |all|
  {
    SomeFirst(all, i);
    var j :| 0 <= j <= i && New(all, j) && all[j].packet.interfaceId == all[i].packet.interfaceId;
    BoundedSet(IdsBefore(all, j) + {all[j].packet.interfaceId}, TWO_32);
    |IdsBefore(all, j)|
  }

  lemma OutputIdIs(all: seq<Moment>, i: nat, j: nat)
    requires j <= i < |all| && New(all, j) && all[j].packet.interfaceId == all[i].packet.interfaceId
    ensures OutputId(all, i) == |IdsBefore(all, j)|
  {
    forall k | 0 <= k <= i && New(all, k) && all[k].packet.interfaceId == all[i].packet.interfaceId
      ensures k == j
    {
    }
  }

  /** The resolution in which the copy stamps what comes on an interface that came up at the i-th packet. */
  function ResolutionThen(all: seq<Moment>, i: nat): int
    requires i < |all|
  {
    var s, id := all[i].state, all[i].packet.interfaceId;
    if id in s.interfaces && s.interfaces[id].tsRes != 0 then s.interfaces[id].tsRes else 1000
  }

  /** The calls for the i-th packet: its interface, if that is new, as the input has declared it by then, and the
      packet, if the machine keeps it. */
  ghost function CallsAt(all: seq<Moment>, i: nat, machine: Machine, clock: Time): seq<Call>
    requires i < |all|
  {
    (if New(all, i) then [DeclarationAt(all, i)] else [])
    + (if machine(all[i].packet.data) == Some(true)
       then [WritePacket(OutputId(all, i), all[i].packet.data, all[i].packet.timestamp, clock, [])] else [])
  }

  function DeclarationAt(all: seq<Moment>, i: nat): Call
    requires i < |all|
  {
    var s, id := all[i].state, all[i].packet.interfaceId;
    if id in s.interfaces then
      AddInterface(s.interfaces[id].block.linkType, s.interfaces[id].block.snapLen,
                   [WithInterfaceTimestampResolution(ResolutionThen(all, i))])
    else
      AddInterface(1, 65535, [WithInterfaceTimestampResolution(ResolutionThen(all, i))])
  }

  /** What stops the copy at the i-th packet: an interface in a resolution that cannot be written, or the machine. */
  function FaultAt(all: seq<Moment>, i: nat, machine: Machine): Option<CopyError>
    requires i < |all|
  {
    var res := ResolutionThen(all, i);
    if New(all, i) && res != 1 && res != 1000 then Some(WriteFailed(UnsupportedResolution(res)))
    else if machine(all[i].packet.data) == None then Some(MachineFailed)
    else None
  }

  ghost function CallsBetween(all: seq<Moment>, k: nat, n: nat, machine: Machine, clock: Time): seq<Call>
    requires n <= |all|
    decreases n - k
  {
    if k >= n then [] else CallsAt(all, k, machine, clock) + CallsBetween(all, k + 1, n, machine, clock)
  }

  function PassingBetween(all: seq<Moment>, k: nat, n: nat, machine: Machine): seq<Packet>
    requires n <= |all|
    decreases n - k
  {
    if k >= n then []
    else (if machine(all[k].packet.data) == Some(true) then [all[k].packet] else [])
         + PassingBetween(all, k + 1, n, machine)
  }

  /** A copy, from the k-th packet of an input on, went through the packets before the n-th and stopped there, or
      at the end of the input. At a packet that the machine gives up on its interface is declared already. */
  ghost predicate Told(run: CopyRun, all: seq<Moment>, k: nat, n: nat, end: ReadError, machine: Machine, clock: Time) {
    && k <= n <= |all| && (forall i :: k <= i < n ==> FaultAt(all, i, machine) == None)
    && KeptPackets(run.kept) == PassingBetween(all, k, n, machine)
    && (n == |all| ==>
          && run.outcome == (if end == Eof then Ok(()) else Err(ReadFailed(end)))
          && run.calls == CallsBetween(all, k, n, machine, clock))
    && (n < |all| ==>
          && FaultAt(all, n, machine).Some? && run.outcome == Err(FaultAt(all, n, machine).value)
          && run.calls == CallsBetween(all, k, n, machine, clock)
                          + if New(all, n) && run.outcome == Err(MachineFailed) then [DeclarationAt(all, n)] else [])
  }

  // ---- Why it does ------------------------------------------------------------------------

  /** The mapping has numbered the interfaces of the packets so far in the order in which they came up. */
  ghost predicate Knows(before: seq<Moment>, idMap: map<Uint32, Uint32>) {
    && idMap.Keys == IdsBefore(before, |before|)
    && forall i :: 0 <= i < |before| ==> idMap[before[i].packet.interfaceId] == OutputId(before, i)
  }

  /** What is told of a packet does not depend on later ones. */
  lemma LaterDoNotMatter(before: seq<Moment>, all: seq<Moment>, i: nat)
    requires i < |before| && before <= all
    ensures New(before, i) <==> New(all, i)
    ensures OutputId(before, i) == OutputId(all, i)
  {
    assert forall k :: 0 <= k <= |before| ==> IdsBefore(before, k) == IdsBefore(all, k);
    SomeFirst(all, i);
    var j :| 0 <= j <= i && New(all, j) && all[j].packet.interfaceId == all[i].packet.interfaceId;
    OutputIdIs(all, i, j);
    OutputIdIs(before, i, j);
  }

  lemma IdsGrow(before: seq<Moment>, m: Moment)
    ensures var all, k := before + [m], |before|;
            && IdsBefore(all, k) == IdsBefore(before, k)
            && IdsBefore(all, k + 1) == IdsBefore(before, k) + {m.packet.interfaceId}
            && (forall i :: 0 <= i < k ==> all[i].packet.interfaceId in IdsBefore(before, k))
            && (forall id :: id in IdsBefore(before, k) ==> exists i :: 0 <= i < k && before[i].packet.interfaceId == id)
  {
    var all, k := before + [m], |before|;
    assert forall i :: 0 <= i < k ==> all[i] == before[i];
    assert all[k] == m;
    forall id
      ensures id in IdsBefore(all, k) <==> id in IdsBefore(before, k)
    {
    }
    assert IdsBefore(all, k + 1) == IdsBefore(all, k) + {m.packet.interfaceId};
  }

  lemma KnowsMore(before: seq<Moment>, m: Moment, idMap: map<Uint32, Uint32>)
    requires Knows(before, idMap)
    ensures var all, id := before + [m], m.packet.interfaceId;
            && (New(all, |before|) <==> id !in idMap)
            && OutputId(all, |before|) == (if id in idMap then idMap[id] else |idMap|)
            && Knows(all, if id in idMap then idMap else idMap[id := OutputId(all, |before|)])
  {
    hide OutputId, IdsBefore;
    var all, id, k := before + [m], m.packet.interfaceId, |before|;
    IdsGrow(before, m);
    assert |idMap| == |idMap.Keys|;
    if id in idMap {
      var i :| 0 <= i < k && before[i].packet.interfaceId == id;
      LaterDoNotMatter(before, all, i);
      SameOutput(all, k, i);
    } else {
      OutputIdIs(all, k, k);
    }
    hide New;
    forall i | 0 <= i < k
      ensures idMap[all[i].packet.interfaceId] == OutputId(all, i)
    {
      LaterDoNotMatter(before, all, i);
      assert all[i] == before[i];
    }
  }

  lemma SameOutput(all: seq<Moment>, i: nat, k: nat)
    requires k <= i < |all| && all[i].packet.interfaceId == all[k].packet.interfaceId
    ensures OutputId(all, i) == OutputId(all, k)
  {
    SomeFirst(all, k);
    var j :| 0 <= j <= k && New(all, j) && all[j].packet.interfaceId == all[k].packet.interfaceId;
    OutputIdIs(all, i, j);
    OutputIdIs(all, k, j);
  }

  lemma NothingTold(run: CopyRun, all: seq<Moment>, end: ReadError, machine: Machine, clock: Time)
    requires run.calls == [] && run.kept == [] && run.outcome == if end == Eof then Ok(()) else Err(ReadFailed(end))
    ensures Told(run, all, |all|, |all|, end, machine, clock)
  {
  }

  lemma StopTold(run: CopyRun, all: seq<Moment>, k: nat, end: ReadError, machine: Machine, clock: Time)
    requires k < |all| && FaultAt(all, k, machine).Some? && run.outcome == Err(FaultAt(all, k, machine).value)
    requires run.kept == []
    requires run.calls == if New(all, k) && run.outcome == Err(MachineFailed) then [DeclarationAt(all, k)] else []
    ensures Told(run, all, k, k, end, machine, clock)
  {
    hide FaultAt, New, DeclarationAt;
    assert [] + run.calls == run.calls;
  }

  /** One packet more in front. */
  lemma ToldOneMore(run: CopyRun, others: CopyRun, all: seq<Moment>, k: nat, n: nat, end: ReadError, machine: Machine,
                    clock: Time)
    requires k < |all| && Told(others, all, k + 1, n, end, machine, clock) && FaultAt(all, k, machine) == None
    requires run.outcome == others.outcome && run.calls == CallsAt(all, k, machine, clock) + others.calls
    requires KeptPackets(run.kept) == (if machine(all[k].packet.data) == Some(true) then [all[k].packet] else [])
                                      + KeptPackets(others.kept)
    ensures Told(run, all, k, n, end, machine, clock)
  {
    hide FaultAt, New, DeclarationAt, KeptPackets, CallsAt;
    var last := if n < |all| && New(all, n) && run.outcome == Err(MachineFailed) then [DeclarationAt(all, n)] else [];
    Associative(CallsAt(all, k, machine, clock), CallsBetween(all, k + 1, n, machine, clock), last);
  }

  /** The writer and the mapping with which a packet is delivered. */
  function Declaring(r: ReaderState, w: WriterState, idMap: map<Uint32, Uint32>, id: Uint32)
    : (WriterState, map<Uint32, Uint32>)
  {
    if id in idMap then (w, idMap) else (After(w, Declaration(r, id)), idMap[id := w.nextInterface])
  }

  /** A packet whose interface is known or can be declared: the copy declares it and goes on to deliver. */
  lemma DeclaredFirst(r: ReaderState, input: seq<Byte>, w: WriterState, idMap: map<Uint32, Uint32>, machine: Machine,
                      clock: Time, pkt: Packet)
    requires MapsInto(idMap, w) && NextPacket(r, input).outcome == Ok(pkt)
    requires pkt.interfaceId in idMap
             || InterfaceOptions(w, Declaration(NextPacket(r, input).state, pkt.interfaceId).ifOpts).Ok?
    ensures var next, id := NextPacket(r, input), pkt.interfaceId;
            var (w1, idMap1) := Declaring(next.state, w, idMap, id);
            && MapsInto(idMap1, w1) && id in idMap1
            && var delivery := Deliver(next.state, next.rest, pkt, w1, idMap1, machine, clock);
               var run := CopyFrom(r, input, w, idMap, machine, clock);
               && run.calls == (if id in idMap then [] else [Declaration(next.state, id)]) + delivery.calls
               && run.kept == delivery.kept && run.outcome == delivery.outcome
  {
    hide MapsInto, InterfaceOptions, Declaration, After, Deliver, NextPacket;
    var next, id := NextPacket(r, input), pkt.interfaceId;
    if id !in idMap {
      DeclarationKeepsMapping(w, idMap, next.state, id);
    }
  }

  lemma DeliveryStep(r: ReaderState, rest: seq<Byte>, w: WriterState, idMap: map<Uint32, Uint32>, machine: Machine,
                     clock: Time, pkt: Packet)
    requires MapsInto(idMap, w) && pkt.interfaceId in idMap
    ensures var delivery := Deliver(r, rest, pkt, w, idMap, machine, clock);
            && (machine(pkt.data) == None ==>
                  delivery.calls == [] && delivery.kept == [] && delivery.outcome == Err(MachineFailed))
            && (machine(pkt.data).Some? ==>
                  var others := CopyFrom(r, rest, w, idMap, machine, clock);
                  var written := if machine(pkt.data).value
                                 then [WritePacket(idMap[pkt.interfaceId], pkt.data, pkt.timestamp, clock, [])] else [];
                  && delivery.calls == written + others.calls && delivery.outcome == others.outcome
                  && KeptPackets(delivery.kept)
                     == (if machine(pkt.data).value then [pkt] else []) + KeptPackets(others.kept))
  {
    hide MapsInto, CopyFrom, PacketBytes, Ticks;
    KnownInterface(idMap, w, pkt.interfaceId);
    var others := CopyFrom(r, rest, w, idMap, machine, clock);
    if machine(pkt.data) == Some(true) {
      assert Deliver(r, rest, pkt, w, idMap, machine, clock).kept[1..] == others.kept;
    }
  }

  lemma PacketStep(r: ReaderState, input: seq<Byte>, w: WriterState, idMap: map<Uint32, Uint32>, machine: Machine,
                   clock: Time, pkt: Packet)
    requires MapsInto(idMap, w) && NextPacket(r, input).outcome == Ok(pkt)
    requires pkt.interfaceId in idMap
             || InterfaceOptions(w, Declaration(NextPacket(r, input).state, pkt.interfaceId).ifOpts).Ok?
    ensures var next, id := NextPacket(r, input), pkt.interfaceId;
            var (w1, idMap1) := Declaring(next.state, w, idMap, id);
            var declared := if id in idMap then [] else [Declaration(next.state, id)];
            var run := CopyFrom(r, input, w, idMap, machine, clock);
            && MapsInto(idMap1, w1) && id in idMap1
            && (machine(pkt.data) == None ==>
                  run.calls == declared && run.kept == [] && run.outcome == Err(MachineFailed))
            && (machine(pkt.data).Some? ==>
                  var others := CopyFrom(next.state, next.rest, w1, idMap1, machine, clock);
                  var written := if machine(pkt.data).value
                                 then [WritePacket(idMap1[id], pkt.data, pkt.timestamp, clock, [])] else [];
                  && run.calls == declared + written + others.calls && run.outcome == others.outcome
                  && KeptPackets(run.kept) == (if machine(pkt.data).value then [pkt] else []) + KeptPackets(others.kept))
  {
    hide MapsInto, InterfaceOptions, Declaration, Declaring, CopyFrom, Deliver, NextPacket, KeptPackets;
    var next := NextPacket(r, input);
    var (w1, idMap1) := Declaring(next.state, w, idMap, pkt.interfaceId);
    DeclaredFirst(r, input, w, idMap, machine, clock, pkt);
    DeliveryStep(next.state, next.rest, w1, idMap1, machine, clock, pkt);
  }

  /** The declaration of a new interface, and whether the writer takes it. */
  lemma DeclarationTells(idMap: map<Uint32, Uint32>, w: WriterState, all: seq<Moment>, k: nat)
    requires MapsInto(idMap, w) && k < |all| && New(all, k)
    ensures var declaration := Declaration(all[k].state, all[k].packet.interfaceId);
            var res := ResolutionThen(all, k);
            && declaration == DeclarationAt(all, k)
            && InterfaceOptions(w, declaration.ifOpts).Ok? == (res == 1 || res == 1000)
            && (res != 1 && res != 1000 ==>
                  InterfaceOptions(w, declaration.ifOpts) == Err(UnsupportedResolution(res)))
  {
    hide MapsInto, New;
    MapsIntoDefault(idMap, w);
    var opts := Declaration(all[k].state, all[k].packet.interfaceId).ifOpts;
    ConfigureInterfaceMeaning(opts);
    assert opts[..0] == [] && opts[1..] == [];
    assert RawOptions(opts) == RawOptions(opts[1..]) == [];
    assert LastSetting(opts) == opts[0].res;
    assert forall o :: o in opts ==> !IsRawResolution(o);
  }

  lemma NextNumberIs(idMap: map<Uint32, Uint32>, w: WriterState, id: Uint32)
    requires MapsInto(idMap, w) && id !in idMap
    ensures w.nextInterface == |idMap|
  {
    hide OneToOne;
    RoomForAnother(idMap, id);
  }

  /** From any point of a copy on. */
  lemma {:induction false} CopyTells(r: ReaderState, input: seq<Byte>, w: WriterState, idMap: map<Uint32, Uint32>,
                                     machine: Machine, clock: Time, before: seq<Moment>) returns (n: nat)
    requires MapsInto(idMap, w) && Knows(before, idMap)
    ensures Told(CopyFrom(r, input, w, idMap, machine, clock), before + Moments(r, input), |before|, n,
                 ReadAll(r, input).end, machine, clock)
    decreases |input|
  {
    hide NextPacket, InterfaceOptions, Declaration, DeclarationAt, MapsInto, After, Deliver, Told, Knows, New, KeptPackets,
      OutputId, IdsBefore, ResolutionThen;
    var next := NextPacket(r, input);
    var all, k := before + Moments(r, input), |before|;
    var run := CopyFrom(r, input, w, idMap, machine, clock);
    match next.outcome
    case Err(e) =>
      n := k;
      assert all == before;
      NothingTold(run, all, e, machine, clock);
    case Ok(pkt) =>
      var id, m, end := pkt.interfaceId, Moment(next.state, pkt), ReadAll(r, input).end;
      assert all == (before + [m]) + Moments(next.state, next.rest) && all[k] == m;
      KnowsMore(before, m, idMap);
      LaterDoNotMatter(before + [m], all, k);
      if id !in idMap {
        NextNumberIs(idMap, w, id);
      }
      if New(all, k) {
        DeclarationTells(idMap, w, all, k);
      }
      if id !in idMap && InterfaceOptions(w, Declaration(next.state, id).ifOpts).Err? {
        n := k;
        StopTold(run, all, k, end, machine, clock);
      } else {
        PacketStep(r, input, w, idMap, machine, clock, pkt);
        if machine(pkt.data) == None {
          n := k;
          StopTold(run, all, k, end, machine, clock);
        } else {
          var (w1, idMap1) := Declaring(next.state, w, idMap, id);
          var others := CopyFrom(next.state, next.rest, w1, idMap1, machine, clock);
          n := CopyTells(next.state, next.rest, w1, idMap1, machine, clock, before + [m]);
          ToldOneMore(run, others, all, k, n, end, machine, clock);
        }
      }
  }

  // ---- What a copy does -------------------------------------------------------------------

  lemma NothingKnown()
    ensures Knows([], map[])
  {
  }

  /** Any copy, of any bytes: the packets of the input tell how far it goes, with which outcome, which packets it
      keeps, and every call that it makes on the writer. */
  lemma CopyIsToldByPackets(input: seq<Byte>, machine: Machine, clock: Time) returns (n: nat)
    ensures Told(CopyOf(input, machine, clock), Moments(INITIAL, input), 0, n, ReadAll(INITIAL, input).end, machine, clock)
  {
    hide Told, Moments, CopyFrom, ReadAll;
    MapsIntoStart();
    NothingKnown();
    n := CopyTells(INITIAL, input, Start(DEFAULT_CONFIG), map[], machine, clock, []);
    assert [] + Moments(INITIAL, input) == Moments(INITIAL, input);
  }

  /** The packets are those that ReadPacket gives. */
  lemma {:induction false} MomentsAreRead(s: ReaderState, input: seq<Byte>)
    ensures |Moments(s, input)| == |ReadAll(s, input).packets|
    ensures forall i :: 0 <= i < |Moments(s, input)| ==> Moments(s, input)[i].packet == ReadAll(s, input).packets[i]
    decreases |input|
  {
    hide NextPacket;
    var next := NextPacket(s, input);
    if next.outcome.Ok? {
      MomentsAreRead(next.state, next.rest);
    }
  }
}
