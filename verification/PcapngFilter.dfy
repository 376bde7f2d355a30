/** Copying the packets of a capture that pass a filter. The BPF machine is a function from packet
    bytes to keep, drop or an error. */
module PcapngFilter {
  import opened Wrappers
  import opened Bytes
  import opened PcapngBlocks
  import opened PcapngWriter
  import opened PcapngReader
  import opened PcapngRoundTrip

  type Machine = seq<Byte> -> Option<bool>

  datatype CopyError =
    | ReadFailed(readError: ReadError)
    | WriteFailed(writeError: WriteError)
    | MachineFailed

  /** A packet that was kept, the output interface it went to, and what that interface is. */
  datatype Kept = Kept(packet: Packet, outId: Uint32, info: WriterInterface)

  /** A finished copy: the calls made on the writer, the packets kept, the interface mapping. */
  datatype CopyRun = CopyRun(calls: seq<Call>, kept: seq<Kept>, idMap: map<Uint32, Uint32>,
                             outcome: Result<(), CopyError>)

  /** How the copy declares an input interface that it has not met before. */
  function Declaration(r: ReaderState, id: Uint32): (c: Call)
    ensures c.AddInterface? && |c.ifOpts| == 1 && c.ifOpts[0].WithInterfaceTimestampResolution? && c.ifOpts[0].res != 0
  {
    if id in r.interfaces then
      var info := r.interfaces[id];
      AddInterface(info.block.linkType, info.block.snapLen,
                   [WithInterfaceTimestampResolution(if info.tsRes == 0 then MICROSECOND else info.tsRes)])
    else
      AddInterface(1, 65535, [WithInterfaceTimestampResolution(MICROSECOND)])
  }

  /** The copy from here on: read a packet, declare its interface if it is new, deliver it. */
  function CopyFrom(r: ReaderState, input: seq<Byte>, w: WriterState, idMap: map<Uint32, Uint32>,
                    machine: Machine, clock: Time): CopyRun
    decreases |input|, 0
  {
    var next := NextPacket(r, input);
    match next.outcome
    case Err(e) => CopyRun([], [], idMap, if e == Eof then Ok(()) else Err(ReadFailed(e)))
    case Ok(pkt) =>
      if pkt.interfaceId in idMap then Deliver(next.state, next.rest, pkt, w, idMap, machine, clock)
      else
        var declaration := Declaration(next.state, pkt.interfaceId);
        match InterfaceOptions(w, declaration.ifOpts)
        case Err(e) => CopyRun([], [], idMap, Err(WriteFailed(e)))
        case Ok(_) =>
          var others := Deliver(next.state, next.rest, pkt, After(w, declaration),
                                idMap[pkt.interfaceId := w.nextInterface], machine, clock);
          others.(calls := [declaration] + others.calls)
  }

  /** Filter a packet whose interface is declared, write it if it passes, and go on. */
  function Deliver(r: ReaderState, rest: seq<Byte>, pkt: Packet, w: WriterState, idMap: map<Uint32, Uint32>,
                   machine: Machine, clock: Time): CopyRun
    requires pkt.interfaceId in idMap
    decreases |rest|, 1
  {
    match machine(pkt.data)
    case None => CopyRun([], [], idMap, Err(MachineFailed))
    case Some(false) => CopyFrom(r, rest, w, idMap, machine, clock)
    case Some(true) =>
      var outId := idMap[pkt.interfaceId];
      match WritePacketBytes(w, outId, pkt.data, pkt.timestamp, clock, [])
      case Err(e) => CopyRun([], [], idMap, Err(WriteFailed(e)))
      case Ok(_) =>
        var others := CopyFrom(r, rest, w, idMap, machine, clock);
        others.(calls := [WritePacket(outId, pkt.data, pkt.timestamp, clock, [])] + others.calls,
                kept := [Kept(pkt, outId, w.interfaces[outId])] + others.kept)
  }

  // ---- The copying loop -------------------------------------------------------------------

  /** The calls made so far, and those that a run from the present state would still make, are the
      calls of the whole copy. */
  ghost predicate Progress(whole: CopyRun, made: seq<Call>, count: nat, others: CopyRun) {
    whole.calls == made + others.calls && whole.outcome == others.outcome && |whole.kept| == count + |others.kept|
  }

  ghost predicate HasWritten(out: seq<Byte>, made: seq<Call>, w: WriterState) {
    && FinalState(Start(DEFAULT_CONFIG), made) == w
    && out == SectionBytes(DEFAULT_CONFIG) + RunBytes(Start(DEFAULT_CONFIG), made)
  }

  lemma HasWrittenNothing()
    ensures HasWritten(SectionBytes(DEFAULT_CONFIG), [], Start(DEFAULT_CONFIG))
  {
    hide SectionBytes;
  }

  lemma HasWrittenMore(out: seq<Byte>, made: seq<Call>, w: WriterState, call: Call)
    requires HasWritten(out, made, w)
    ensures HasWritten(out + CallBytes(w, call), made + [call], After(w, call))
  {
    hide SectionBytes, RunBytes, FinalState;
    ExtendRun(Start(DEFAULT_CONFIG), made, call);
    Associative(SectionBytes(DEFAULT_CONFIG), RunBytes(Start(DEFAULT_CONFIG), made), CallBytes(w, call));
  }

  lemma Progressed(whole: CopyRun, made: seq<Call>, count: nat, call: Call, kept: seq<Kept>, others: CopyRun)
    requires Progress(whole, made, count, others.(calls := [call] + others.calls, kept := kept + others.kept))
    ensures Progress(whole, made + [call], count + |kept|, others)
  {
    Associative(made, [call], others.calls);
  }

  lemma Finished(whole: CopyRun, made: seq<Call>, count: nat, others: CopyRun, out: seq<Byte>, w: WriterState)
    requires Progress(whole, made, count, others) && others.calls == [] && others.kept == []
    requires HasWritten(out, made, w)
    ensures |whole.kept| == count && whole.outcome == others.outcome
    ensures out == SectionBytes(DEFAULT_CONFIG) + RunBytes(Start(DEFAULT_CONFIG), whole.calls)
  {
    hide SectionBytes, RunBytes;
    assert made + [] == made;
  }

  /** Declare the interface of a packet just read, as the reader knows it, on the writer. */
  method DeclareInterface(reader: Reader, writer: Writer, id: Uint32) returns (r: Result<Uint32, WriteError>)
    modifies writer`out, writer`interfaces, writer`nextInterface
    ensures var w, declaration := old(writer.State()), Declaration(reader.State(), id);
            if InterfaceOptions(w, declaration.ifOpts).Ok? then
              && r == Ok(w.nextInterface)
              && writer.State() == After(w, declaration) && writer.out == old(writer.out) + CallBytes(w, declaration)
            else
              && r == Err(InterfaceOptions(w, declaration.ifOpts).error)
              && writer.State() == w && writer.out == old(writer.out)
  {
    hide InterfaceOptions, InterfaceBytes, WithNewInterface, EffectiveResolution;
    var lt: Uint16, snap: Uint32, tsRes := 1, 65535, MICROSECOND;
    if id in reader.interfaces {
      var info := reader.interfaces[id];
      lt, snap, tsRes := info.block.linkType, info.block.snapLen, info.tsRes;
      if tsRes == 0 {
        tsRes := MICROSECOND;
      }
    }
    r := writer.AddInterface(lt, snap, [WithInterfaceTimestampResolution(tsRes)]);
  }

  method FilterCopy(input: seq<Byte>, machine: Machine, clock: Time)
    returns (count: nat, outcome: Result<(), CopyError>, out: seq<Byte>)
    ensures var run := CopyFrom(INITIAL, input, Start(DEFAULT_CONFIG), map[], machine, clock);
            && count == |run.kept| && outcome == run.outcome
            && out == SectionBytes(DEFAULT_CONFIG) + RunBytes(Start(DEFAULT_CONFIG), run.calls)
  {
    hide SectionBytes, RunBytes, InterfaceOptions, NextPacket, Progress, HasWritten, Declaration, PacketBytes,
      EncodeTimestamp, InterfaceBytes, After;
    var reader := new Reader(input);
    var created := Writer.NewWriter([]);
    var writer := created.value;
    var idMap: map<Uint32, Uint32> := map[];
    count := 0;
    ghost var made: seq<Call> := [];
    ghost var run := CopyFrom(INITIAL, input, Start(DEFAULT_CONFIG), map[], machine, clock);
    HasWrittenNothing();
    NoProgress(run);
    while true
      invariant fresh(reader) && fresh(writer)
      invariant Progress(run, made, count,
                         CopyFrom(reader.State(), reader.input, writer.State(), idMap, machine, clock))
      invariant HasWritten(writer.out, made, writer.State())
      decreases |reader.input|
    {
      ghost var others := CopyFrom(reader.State(), reader.input, writer.State(), idMap, machine, clock);
      var pkt := reader.ReadPacket();
      if pkt.Err? {
        Finished(run, made, count, others, writer.out, writer.State());
        return count, if pkt.error == Eof then Ok(()) else Err(ReadFailed(pkt.error)), writer.out;
      }
      var p := pkt.value;
      if p.interfaceId !in idMap {
        ghost var declaration := Declaration(reader.State(), p.interfaceId);
        HasWrittenMore(writer.out, made, writer.State(), declaration);
        var id := DeclareInterface(reader, writer, p.interfaceId);
        if id.Err? {
          Finished(run, made, count, others, writer.out, writer.State());
          return count, Err(WriteFailed(id.error)), writer.out;
        }
        idMap := idMap[p.interfaceId := id.value];
        others := Deliver(reader.State(), reader.input, p, writer.State(), idMap, machine, clock);
        assert [] + others.kept == others.kept;
        Progressed(run, made, count, declaration, [], others);
        made := made + [declaration];
      }
      assert others == Deliver(reader.State(), reader.input, p, writer.State(), idMap, machine, clock);
      var keep := machine(p.data);
      if keep.None? {
        Finished(run, made, count, others, writer.out, writer.State());
        return count, Err(MachineFailed), writer.out;
      }
      if !keep.value {
        continue;
      }
      if WritePacketBytes(writer.State(), idMap[p.interfaceId], p.data, p.timestamp, clock, []).Ok? {
        Delivered(run, made, count, writer.out, reader.State(), reader.input, p, writer.State(), idMap, machine, clock);
      }
      var written := writer.WritePacket(idMap[p.interfaceId], p.data, p.timestamp, clock, []);
      if written.Err? {
        Finished(run, made, count, others, writer.out, writer.State());
        return count, Err(WriteFailed(written.error)), writer.out;
      }
      made := made + [WritePacket(idMap[p.interfaceId], p.data, p.timestamp, clock, [])];
      count := count + 1;
    }
  }

  /** Progress by a packet that passes. */
  lemma Delivered(whole: CopyRun, made: seq<Call>, count: nat, out: seq<Byte>, r: ReaderState, rest: seq<Byte>,
                  p: Packet, w: WriterState, idMap: map<Uint32, Uint32>, machine: Machine, clock: Time)
    requires p.interfaceId in idMap && machine(p.data) == Some(true)
    requires WritePacketBytes(w, idMap[p.interfaceId], p.data, p.timestamp, clock, []).Ok?
    requires Progress(whole, made, count, Deliver(r, rest, p, w, idMap, machine, clock)) && HasWritten(out, made, w)
    ensures var id := idMap[p.interfaceId];
            var more := made + [WritePacket(id, p.data, p.timestamp, clock, [])];
            && Progress(whole, more, count + 1, CopyFrom(r, rest, w, idMap, machine, clock))
            && HasWritten(out + WritePacketBytes(w, id, p.data, p.timestamp, clock, []).value, more, w)
  {
    hide Progress, HasWritten, WritePacketBytes, CopyFrom;
    var id := idMap[p.interfaceId];
    var call := WritePacket(id, p.data, p.timestamp, clock, []);
    PacketLeavesState(w, call);
    HasWrittenMore(out, made, w, call);
    Progressed(whole, made, count, call, [Kept(p, id, w.interfaces[id])],
               CopyFrom(r, rest, w, idMap, machine, clock));
  }

  lemma NoProgress(whole: CopyRun)
    ensures Progress(whole, [], 0, whole)
  {
  }

  // ---- What a copy contains ---------------------------------------------------------------

  /** A kept packet as it reads back from the output. */
  function Copied(k: Kept): Packet {
    var n := CapturedLength(k.packet.data, k.info.snapLen);
    Packet(k.outId, k.packet.data[..n], Truncate(k.packet.timestamp, k.info.tsRes), n, |k.packet.data| % TWO_32, [])
  }

  function CopiedAll(kept: seq<Kept>): seq<Packet> {
    if kept == [] then [] else [Copied(kept[0])] + CopiedAll(kept[1..])
  }

  lemma {:induction false} CopiedAllForm(kept: seq<Kept>)
    ensures |CopiedAll(kept)| == |kept|
    ensures forall i :: 0 <= i < |kept| ==> CopiedAll(kept)[i] == Copied(kept[i])
    decreases |kept|
  {
    if kept != [] {
      CopiedAllForm(kept[1..]);
    }
  }

  /** The output block of a kept packet is well formed: its length field does not wrap, and its
      timestamp fits the resolution under which its interface was first met. */
  predicate Storable(k: Kept) {
    SizeFits(CapturedLength(k.packet.data, k.info.snapLen)) && InRange(k.packet.timestamp, k.info.tsRes)
  }

  /** A packet block without options, of so many bytes of data, has a length below 2^32. */
  predicate SizeFits(n: nat) {
    36 + n + PadLength(n) < TWO_32
  }

  /** The mapping is one-to-one, onto output ids below n. */
  ghost predicate OneToOne(idMap: map<Uint32, Uint32>, n: nat) {
    && (forall a, b :: a in idMap && b in idMap && idMap[a] == idMap[b] ==> a == b)
    && (forall a :: a in idMap ==> idMap[a] < n)
  }

  /** The writer has declared interfaces 0 to n - 1, all with a resolution it can stamp. */
  ghost predicate Declared(w: WriterState, n: nat) {
    && w.order == LittleEndian && w.defaultRes == MICROSECOND
    && (n < TWO_32 ==> w.nextInterface == n)
    && (forall id :: id in w.interfaces ==> id < n && Supported(w.interfaces[id].tsRes))
    && (forall id: Uint32 :: id < n ==> id in w.interfaces)
  }

  ghost predicate MapsInto(idMap: map<Uint32, Uint32>, w: WriterState) {
    OneToOne(idMap, |idMap|) && Declared(w, |idMap|)
  }

  lemma RoomForAnother(idMap: map<Uint32, Uint32>, id: Uint32)
    requires id !in idMap
    ensures |idMap| < TWO_32
  {
    BoundedSet(idMap.Keys + {id}, TWO_32);
  }

  lemma {:induction false} BoundedSet(s: set<Uint32>, n: nat)
    requires forall x :: x in s ==> x < n
    ensures |s| <= n
  {
    if n > 0 {
      BoundedSet(s - {n - 1}, n - 1);
    } else {
      assert s == {};
    }
  }

  lemma MapsIntoStart()
    ensures MapsInto(map[], Start(DEFAULT_CONFIG))
  {
  }

  lemma DeclarationKeepsMapping(w: WriterState, idMap: map<Uint32, Uint32>, r: ReaderState, id: Uint32)
    requires MapsInto(idMap, w) && id !in idMap
    requires InterfaceOptions(w, Declaration(r, id).ifOpts).Ok?
    ensures MapsInto(idMap[id := w.nextInterface], After(w, Declaration(r, id)))
  {
    hide Readable, Meant, InterfaceOptions, Declaration, EffectiveResolution;
    DeclarationIsReadable(w, r, id);
    RoomForAnother(idMap, id);
    var call := Declaration(r, id);
    GrowMapping(w, idMap, id, WriterInterface(call.linkType, call.snapLen, EffectiveResolution(w, call.ifOpts)));
  }

  lemma GrowMapping(w: WriterState, idMap: map<Uint32, Uint32>, id: Uint32, info: WriterInterface)
    requires MapsInto(idMap, w) && id !in idMap && |idMap| < TWO_32 && Supported(info.tsRes)
    ensures MapsInto(idMap[id := w.nextInterface], WithNewInterface(w, info))
  {
    hide OneToOne, Declared, WithNewInterface, Supported;
    var n: Uint32 := |idMap|;
    GrowTable(w, info, n);
    GrowMap(idMap, id, n);
    GrowSize(idMap, id, n);
  }

  lemma GrowSize<K, V>(m: map<K, V>, k: K, v: V)
    requires k !in m
    ensures |m[k := v]| == |m| + 1
  {
    assert m[k := v].Keys == m.Keys + {k};
  }

  lemma GrowMap(idMap: map<Uint32, Uint32>, id: Uint32, n: Uint32)
    requires OneToOne(idMap, n)
    ensures OneToOne(idMap[id := n], n + 1)
  {
  }

  lemma GrowTable(w: WriterState, info: WriterInterface, n: Uint32)
    requires Declared(w, n) && Supported(info.tsRes)
    ensures w.nextInterface == n && Declared(WithNewInterface(w, info), n + 1)
  {
    hide Supported;
    var w1 := WithNewInterface(w, info);
    assert w1.interfaces.Keys == w.interfaces.Keys + {n};
  }

  lemma DeclarationIsReadable(w: WriterState, r: ReaderState, id: Uint32)
    requires InterfaceOptions(w, Declaration(r, id).ifOpts).Ok? && w.defaultRes == MICROSECOND
    ensures Readable(w, Declaration(r, id)) && Meant(w, Declaration(r, id)) == []
    ensures Supported(EffectiveResolution(w, Declaration(r, id).ifOpts))
  {
    hide InterfaceBody;
    var opts := Declaration(r, id).ifOpts;
    ConfigureInterfaceMeaning(opts);
    assert opts[..0] == [] && opts[1..] == [];
    assert RawOptions(opts) == RawOptions(opts[1..]) == [];
    assert LastSetting(opts) == opts[0].res;
    assert forall o :: o in opts ==> !IsRawResolution(o);
    OneOptionFits(w.order, Declaration(r, id).linkType, Declaration(r, id).snapLen, InterfaceOptions(w, opts).value);
  }

  lemma OneOptionFits(order: ByteOrder, linkType: Uint16, snapLen: Uint32, options: seq<BlockOption>)
    requires |options| == 1 && |options[0].value| == 1
    ensures Fits(InterfaceBody(order, linkType, snapLen, options))
  {
    hide PutUint16, PutUint32;
    assert EncodeOptionList(order, options[1..]) == [];
    assert |EncodeOption(order, options[0])| == 8;
  }

  /** The call that writes a kept packet. */
  predicate Writes(w: WriterState, call: Call, k: Kept) {
    && call.WritePacket? && k.packet.timestamp != ZERO_TIME
    && call == WritePacket(k.outId, k.packet.data, k.packet.timestamp, call.now, [])
    && k.outId in w.interfaces && w.interfaces[k.outId] == k.info && Supported(k.info.tsRes)
  }

  /** The calls declare interfaces that can be read back, and write the kept packets in order. */
  predicate Carries(w: WriterState, calls: seq<Call>, kept: seq<Kept>)
    decreases |calls|
  {
    if calls == [] then kept == []
    else if calls[0].AddInterface? then Readable(w, calls[0]) && Carries(After(w, calls[0]), calls[1..], kept)
    else kept != [] && Writes(w, calls[0], kept[0]) && Carries(w, calls[1..], kept[1..])
  }

  lemma PacketFits(w: WriterState, call: Call, k: Kept)
    requires Writes(w, call, k)
    ensures Readable(w, call) <==> Storable(k)
    ensures Meant(w, call) == [Copied(k)]
  {
    hide PacketBody, PadLength, InRange, Truncate, Ticks;
    var n := CapturedLength(k.packet.data, k.info.snapLen);
    PlainPacketSize(w.order, k.outId, n, |k.packet.data| % TWO_32, k.packet.data[..n]);
  }

  lemma PlainPacketSize(order: ByteOrder, id: Uint32, capturedLen: Uint32, originalLen: Uint32, payload: seq<Byte>)
    ensures |PacketBody(order, id, 0, 0, capturedLen, originalLen, payload, [])|
         == 24 + |payload| + PadLength(capturedLen)
  {
    hide PutUint32, PutUint16;
    EncodeOptionListEnd(order);
  }

  lemma {:induction false} ReadTimestampsAreNotZero(s: ReaderState, input: seq<Byte>)
    requires NextPacket(s, input).outcome.Ok?
    ensures NextPacket(s, input).outcome.value.timestamp.unix >= 0
    decreases |input|
  {
    hide NextStep;
    StepConsumes(s, input);
    var step := NextStep(s, input);
    if !step.outcome.value.PacketBlock? {
      ReadTimestampsAreNotZero(step.state, step.rest);
    }
  }

  lemma RunCons(w: WriterState, call: Call, calls: seq<Call>)
    ensures FinalState(w, [call] + calls) == FinalState(After(w, call), calls)
  {
    assert ([call] + calls)[1..] == calls;
  }

  /** What CopyCarries promises of a run. */
  ghost predicate Sound(w: WriterState, idMap: map<Uint32, Uint32>, run: CopyRun) {
    && Carries(w, run.calls, run.kept)
    && MapsInto(run.idMap, FinalState(w, run.calls))
    && (forall a :: a in idMap ==> a in run.idMap && run.idMap[a] == idMap[a])
    && (forall k :: k in run.kept ==>
          k.packet.interfaceId in run.idMap && run.idMap[k.packet.interfaceId] == k.outId)
  }

  /** However a copy ends, its calls declare readable interfaces and write the kept packets in order,
      and the final interface mapping is one-to-one and agrees with every packet's output interface. */
  lemma {:induction false} CopyCarries(r: ReaderState, input: seq<Byte>, w: WriterState, idMap: map<Uint32, Uint32>,
                                       machine: Machine, clock: Time)
    requires MapsInto(idMap, w)
    ensures Sound(w, idMap, CopyFrom(r, input, w, idMap, machine, clock))
    decreases |input|, 0
  {
    hide NextPacket, InterfaceOptions, Declaration, MapsInto, Sound, After, Deliver;
    var next := NextPacket(r, input);
    match next.outcome
    case Err(e) => SoundNothing(w, idMap, CopyFrom(r, input, w, idMap, machine, clock).outcome);
    case Ok(pkt) =>
      ReadTimestampsAreNotZero(r, input);
      if pkt.interfaceId in idMap {
        DeliveryCarries(next.state, next.rest, pkt, w, idMap, machine, clock);
      } else {
        var declaration := Declaration(next.state, pkt.interfaceId);
        if InterfaceOptions(w, declaration.ifOpts).Err? {
          SoundNothing(w, idMap, CopyFrom(r, input, w, idMap, machine, clock).outcome);
        } else {
          var w1, idMap1 := After(w, declaration), idMap[pkt.interfaceId := w.nextInterface];
          DeclarationKeepsMapping(w, idMap, next.state, pkt.interfaceId);
          assert w.defaultRes == MICROSECOND by { assert MapsInto(idMap, w); MapsIntoDefault(idMap, w); }
          DeclarationIsReadable(w, next.state, pkt.interfaceId);
          DeliveryCarries(next.state, next.rest, pkt, w1, idMap1, machine, clock);
          SoundDeclaration(w, idMap, declaration, pkt.interfaceId,
                           Deliver(next.state, next.rest, pkt, w1, idMap1, machine, clock));
        }
      }
  }

  lemma {:induction false} DeliveryCarries(r: ReaderState, rest: seq<Byte>, pkt: Packet, w: WriterState,
                                           idMap: map<Uint32, Uint32>, machine: Machine, clock: Time)
    requires MapsInto(idMap, w) && pkt.interfaceId in idMap && pkt.timestamp.unix >= 0
    ensures Sound(w, idMap, Deliver(r, rest, pkt, w, idMap, machine, clock))
    decreases |rest|, 1
  {
    hide WritePacketBytes, MapsInto, Sound, CopyFrom;
    var run := Deliver(r, rest, pkt, w, idMap, machine, clock);
    if machine(pkt.data) == Some(false) {
      CopyCarries(r, rest, w, idMap, machine, clock);
    } else if run.kept == [] {
      SoundNothing(w, idMap, run.outcome);
    } else {
      var others := CopyFrom(r, rest, w, idMap, machine, clock);
      var outId := idMap[pkt.interfaceId];
      KnownInterface(idMap, w, pkt.interfaceId);
      var k := Kept(pkt, outId, w.interfaces[outId]);
      assert run.kept == [k] + others.kept;
      CopyCarries(r, rest, w, idMap, machine, clock);
      SoundPacket(w, idMap, k, clock, others);
    }
  }

  lemma MapsIntoDefault(idMap: map<Uint32, Uint32>, w: WriterState)
    requires MapsInto(idMap, w)
    ensures w.defaultRes == MICROSECOND
  {
  }

  lemma SoundNothing(w: WriterState, idMap: map<Uint32, Uint32>, outcome: Result<(), CopyError>)
    requires MapsInto(idMap, w)
    ensures Sound(w, idMap, CopyRun([], [], idMap, outcome))
  {
    hide MapsInto;
  }

  lemma SoundDeclaration(w: WriterState, idMap: map<Uint32, Uint32>, declaration: Call, id: Uint32, others: CopyRun)
    requires declaration.AddInterface? && Readable(w, declaration) && id !in idMap
    requires Sound(After(w, declaration), idMap[id := w.nextInterface], others)
    ensures Sound(w, idMap, others.(calls := [declaration] + others.calls))
  {
    hide MapsInto, FinalState, Readable, After;
    RunCons(w, declaration, others.calls);
    assert ([declaration] + others.calls)[1..] == others.calls;
  }

  lemma SoundPacket(w: WriterState, idMap: map<Uint32, Uint32>, k: Kept, clock: Time, others: CopyRun)
    requires k.packet.interfaceId in idMap && idMap[k.packet.interfaceId] == k.outId
    requires Writes(w, WritePacket(k.outId, k.packet.data, k.packet.timestamp, clock, []), k)
    requires Sound(w, idMap, others)
    ensures Sound(w, idMap,
                  others.(calls := [WritePacket(k.outId, k.packet.data, k.packet.timestamp, clock, [])] + others.calls,
                          kept := [k] + others.kept))
  {
    hide MapsInto, FinalState, Writes;
    var call := WritePacket(k.outId, k.packet.data, k.packet.timestamp, clock, []);
    RunCons(w, call, others.calls);
    PacketLeavesState(w, call);
    assert ([call] + others.calls)[1..] == others.calls && ([k] + others.kept)[1..] == others.kept;
  }

  lemma PacketLeavesState(w: WriterState, call: Call)
    requires call.WritePacket?
    ensures After(w, call) == w
  {
  }

  lemma KnownInterface(idMap: map<Uint32, Uint32>, w: WriterState, id: Uint32)
    requires MapsInto(idMap, w) && id in idMap
    ensures idMap[id] in w.interfaces && Supported(w.interfaces[idMap[id]].tsRes)
  {
  }

  // ---- Reading a copy back ----------------------------------------------------------------

  lemma {:induction false} CarriedIsReadable(w: WriterState, calls: seq<Call>, kept: seq<Kept>)
    requires Carries(w, calls, kept) && forall k :: k in kept ==> Storable(k)
    ensures AllReadable(w, calls) && Written(w, calls) == CopiedAll(kept)
    decreases |calls|
  {
    hide Readable, Meant, Storable, Writes, Copied;
    if calls != [] {
      if calls[0].AddInterface? {
        CarriedIsReadable(After(w, calls[0]), calls[1..], kept);
        NothingMeant(w, calls[0], Written(After(w, calls[0]), calls[1..]));
      } else {
        PacketFits(w, calls[0], kept[0]);
        CarriedIsReadable(w, calls[1..], kept[1..]);
      }
    }
  }

  /** A packet block whose length wraps is never a block for the reader: the length that is left is at
      most 36, and the captured length that it holds is not. */
  lemma WrappedPacketFails(s: ReaderState, order: ByteOrder, id: Uint32, high: Uint32, low: Uint32,
                           originalLen: Uint32, payload: seq<Byte>, rest: seq<Byte>)
    requires s.order == Some(order) && |payload| < TWO_32 && !SizeFits(|payload|)
    ensures var body := PacketBody(order, id, high, low, |payload|, originalLen, payload, []);
            NextStep(s, Frame(order, ENHANCED_PACKET_BLOCK, body) + rest).outcome.Err?
  {
    hide PutUint32, GetUint32, EncodeOptions, Frame, PacketBody, Zeros, ParsePacket;
    var body := PacketBody(order, id, high, low, |payload|, originalLen, payload, []);
    PlainPacketSize(order, id, |payload|, originalLen, payload);
    PacketBodySize(order, id, high, low, |payload|, originalLen, payload, []);
    PacketBodyParts(order, id, high, low, |payload|, originalLen, payload, []);
    FrameParts(order, ENHANCED_PACKET_BLOCK, body, rest);
    var total := FrameLength(body);
    if 12 <= total {
      var tail := body + PutUint32(order, total) + rest;
      assert [] + tail[..total - 8] == body[..total - 8];
      ShortPacketFails(order, total, body[..total - 8], |payload|);
    }
  }

  lemma ShortPacketFails(order: ByteOrder, total: Uint32, body: seq<Byte>, capturedLen: Uint32)
    requires |body| <= 28 && capturedLen > 4
    requires |body| >= 16 ==> body[12..16] == PutUint32(order, capturedLen)
    ensures ParsePacket(order, total, body).Err?
  {
    hide PutUint32, GetUint32;
    var payload := Payload(order, total, body, 24);
    if payload.Ok? {
      assert payload.value[12..16] == body[12..16];
    }
  }

  /** The first kept packet that cannot be stored is where the output goes wrong: there the reader
      stops, or finds a timestamp that is in range. */
  lemma {:induction false} UnstorableShows(w: WriterState, r: ReaderState, calls: seq<Call>, kept: seq<Kept>)
    returns (i: nat)
    requires Simulates(w, r) && Carries(w, calls, kept) && exists k :: k in kept && !Storable(k)
    ensures i < |kept| && !Storable(kept[i])
    ensures var packets := ReadAll(r, RunBytes(w, calls)).packets;
            i < |packets| ==> !InRange(kept[i].packet.timestamp, kept[i].info.tsRes)
                              && InRange(packets[i].timestamp, kept[i].info.tsRes)
    decreases |calls|
  {
    hide Simulates, Readable, Meant, CallBytes, After, ReadAll, Storable, Writes, InRange;
    var call := calls[0];
    if call.AddInterface? {
      var w1 := After(w, call);
      var r1 := CallReadsBack(w, r, call, RunBytes(w1, calls[1..]));
      NothingMeant(w, call, ReadAll(r1, RunBytes(w1, calls[1..])).packets);
      i := UnstorableShows(w1, r1, calls[1..], kept);
    } else {
      PacketFits(w, call, kept[0]);
      PacketLeavesState(w, call);
      if Storable(kept[0]) {
        var r1 := CallReadsBack(w, r, call, RunBytes(w, calls[1..]));
        assert forall k :: k in kept ==> k == kept[0] || k in kept[1..];
        var j := UnstorableShows(w, r1, calls[1..], kept[1..]);
        i := j + 1;
        var others := ReadAll(r1, RunBytes(w, calls[1..])).packets;
        assert i < |[Copied(kept[0])] + others| ==> ([Copied(kept[0])] + others)[i] == others[j];
      } else {
        UnstorablePacketShows(w, r, call, kept[0], RunBytes(w, calls[1..]));
        i := 0;
      }
    }
  }

  lemma NothingMeant(w: WriterState, call: Call, packets: seq<Packet>)
    requires call.AddInterface?
    ensures Meant(w, call) + packets == packets
  {
  }

  lemma UnstorablePacketShows(w: WriterState, r: ReaderState, call: Call, k: Kept, rest: seq<Byte>)
    requires Simulates(w, r) && Writes(w, call, k) && !Storable(k)
    ensures var packets := ReadAll(r, CallBytes(w, call) + rest).packets;
            packets != [] ==> !InRange(k.packet.timestamp, k.info.tsRes) && InRange(packets[0].timestamp, k.info.tsRes)
  {
    hide ReadAll, NextStep, Frame, PacketBody, TimestampAt, InRange, Ticks, PadLength;
    var data, res := k.packet.data, k.info.tsRes;
    var n := CapturedLength(data, k.info.snapLen);
    ReadAllStep(r, CallBytes(w, call) + rest);
    var (high, low) := EncodeTimestamp(k.packet.timestamp, res).value;
    if SizeFits(n) {
      PlainPacketSize(w.order, k.outId, n, |data| % TWO_32, data[..n]);
      PacketBodySize(w.order, k.outId, high, low, n, |data| % TWO_32, data[..n], []);
      PacketBlockReadsBack(r, w.order, k.outId, high, low, |data| % TWO_32, data[..n], [], rest);
      var body := PacketBody(w.order, k.outId, high, low, n, |data| % TWO_32, data[..n], []);
      var epb := EnhancedPacket(FrameLength(body), k.outId, high, low, n, |data| % TWO_32, data[..n], []);
      assert NextStep(r, CallBytes(w, call) + rest) == Step(r, rest, Ok(PacketBlock(epb)));
      assert ToPacket(r, epb).timestamp == TimestampAt(high, low, r.interfaces[k.outId].tsRes);
      OnlyNanosecondsDiffer(high, low, res, r.interfaces[k.outId].tsRes);
      TimestampsAreInRange(high, low, res);
    } else {
      WrappedPacketFails(r, w.order, k.outId, high, low, |data| % TWO_32, data[..n], rest);
    }
  }

  lemma TimestampsAreInRange(high: Uint32, low: Uint32, res: int)
    requires Supported(res)
    ensures InRange(TimestampAt(high, low, res), res)
    ensures res == NANOSECOND || TimestampAt(high, low, res).nanos % 1_000 == 0
  {
  }

  lemma TruncatedInRange(ts: Time, res: int)
    ensures InRange(Truncate(ts, res), res) <==> InRange(ts, res)
  {
  }

  /** What a copy has written reads back as its kept packets exactly when every one can be stored. */
  lemma CarriedReadsBack(run: CopyRun)
    requires Sound(Start(DEFAULT_CONFIG), map[], run)
    ensures var out := SectionBytes(DEFAULT_CONFIG) + RunBytes(Start(DEFAULT_CONFIG), run.calls);
            && (ReadAll(INITIAL, out) == Contents(CopiedAll(run.kept), Eof) <==> forall k :: k in run.kept ==> Storable(k))
            && ((exists k :: k in run.kept && !Storable(k)) ==> Garbled(run.kept, ReadAll(INITIAL, out).packets))
  {
    hide RunBytes, Written, SectionBytes, ReadAll, AllReadable, SectionBody, Encodable, Carries, Simulates, CopiedAll,
      Storable;
    var start, calls := Start(DEFAULT_CONFIG), run.calls;
    DefaultSectionReadable();
    if forall k :: k in run.kept ==> Storable(k) {
      CarriedIsReadable(start, calls, run.kept);
      FileReadsBack([], calls);
    } else {
      var r := SectionStarts(DEFAULT_CONFIG, RunBytes(start, calls));
      var i := UnstorableShows(start, r, calls, run.kept);
      CopiedAllForm(run.kept);
      TruncatedInRange(run.kept[i].packet.timestamp, run.kept[i].info.tsRes);
    }
  }

  /** Some kept packet is missing from what was read, or there with a timestamp that it cannot have. */
  ghost predicate Garbled(kept: seq<Kept>, packets: seq<Packet>) {
    exists i :: 0 <= i < |kept| &&
      (i < |packets| ==> !InRange(kept[i].packet.timestamp, kept[i].info.tsRes)
                         && InRange(packets[i].timestamp, kept[i].info.tsRes))
  }

  // ---- Which packets are kept -------------------------------------------------------------

  function KeptPackets(kept: seq<Kept>): seq<Packet> {
    if kept == [] then [] else [kept[0].packet] + KeptPackets(kept[1..])
  }

  function Passing(packets: seq<Packet>, machine: Machine): seq<Packet> {
    if packets == [] then []
    else if machine(packets[0].data) == Some(true) then [packets[0]] + Passing(packets[1..], machine)
    else Passing(packets[1..], machine)
  }

  /** A copy that succeeds has read its input to the end and kept exactly the passing packets. */
  lemma {:induction false} CopyKeepsPassing(r: ReaderState, input: seq<Byte>, w: WriterState,
                                            idMap: map<Uint32, Uint32>, machine: Machine, clock: Time)
    requires CopyFrom(r, input, w, idMap, machine, clock).outcome.Ok?
    ensures var all := ReadAll(r, input);
            && all.end == Eof
            && KeptPackets(CopyFrom(r, input, w, idMap, machine, clock).kept) == Passing(all.packets, machine)
    decreases |input|
  {
    hide NextPacket, InterfaceOptions, WritePacketBytes, Declaration, After;
    var next := NextPacket(r, input);
    if next.outcome.Ok? {
      var pkt := next.outcome.value;
      var declaration := Declaration(next.state, pkt.interfaceId);
      var w1 := if pkt.interfaceId in idMap then w else After(w, declaration);
      var idMap1 := if pkt.interfaceId in idMap then idMap else idMap[pkt.interfaceId := w.nextInterface];
      var delivery := Deliver(next.state, next.rest, pkt, w1, idMap1, machine, clock);
      CopyKeepsPassing(next.state, next.rest, w1, idMap1, machine, clock);
      var all, others := ReadAll(r, input), CopyFrom(next.state, next.rest, w1, idMap1, machine, clock);
      assert all.packets[1..] == ReadAll(next.state, next.rest).packets;
      if machine(pkt.data).value {
        assert delivery.kept[1..] == others.kept;
      }
    }
  }

  lemma DefaultSectionReadable()
    ensures ConfigureWriter([]) == Ok(DEFAULT_CONFIG) && SectionReadable(DEFAULT_CONFIG)
  {
    assert EncodeOptionList(LittleEndian, []) == [];
  }

  // ---- What the input says of the copy ----------------------------------------------------

  /** An interface id met on a packet for the first time, and what the input then said of it. */
  datatype Meeting = Meeting(id: Uint32, info: WriterInterface)

  /** The declaration of an interface in force; an unknown one is taken for Ethernet. */
  function InForce(r: ReaderState, id: Uint32): WriterInterface {
    if id in r.interfaces then
      var info := r.interfaces[id];
      WriterInterface(info.block.linkType, info.block.snapLen, if info.tsRes == 0 then MICROSECOND else info.tsRes)
    else
      WriterInterface(1, 65535, MICROSECOND)
  }

  predicate Met(met: seq<Meeting>, id: Uint32) {
    exists i :: 0 <= i < |met| && met[i].id == id
  }

  /** The interfaces of an input in the order in which packets first mention them. */
  function Meetings(r: ReaderState, input: seq<Byte>, met: seq<Meeting>): (all: seq<Meeting>)
    ensures met <= all
    decreases |input|
  {
    var next := NextPacket(r, input);
    match next.outcome
    case Err(_) => met
    case Ok(pkt) => Meetings(next.state, next.rest, Meet(met, next.state, pkt.interfaceId))
  }

  function Meet(met: seq<Meeting>, r: ReaderState, id: Uint32): (all: seq<Meeting>)
    ensures met <= all && Met(all, id)
  {
    if Met(met, id) then met
    else
      assert (met + [Meeting(id, InForce(r, id))])[|met|].id == id;
      met + [Meeting(id, InForce(r, id))]
  }

  function PlaceOf(met: seq<Meeting>, id: Uint32): (i: nat)
    requires Met(met, id)
    ensures i < |met| && met[i].id == id
    ensures forall j :: 0 <= j < i ==> met[j].id != id
  {
    if met[0].id == id then 0
    else
      assert Met(met[1..], id) by {
        var i :| 0 <= i < |met| && met[i].id == id;
        assert met[1..][i - 1].id == id;
      }
      PlaceOf(met[1..], id) + 1
  }

  /** What becomes of a packet of the input that is kept. The interfaces of the output are numbered in
      the order of meeting. */
  function KeptAs(met: seq<Meeting>, p: Packet): Kept
    requires Met(met, p.interfaceId)
  {
    var i := PlaceOf(met, p.interfaceId);
    Kept(p, i % TWO_32, met[i].info)
  }

  predicate AllMet(met: seq<Meeting>, packets: seq<Packet>) {
    forall p :: p in packets ==> Met(met, p.interfaceId)
  }

  function KeptAll(met: seq<Meeting>, packets: seq<Packet>): (kept: seq<Kept>)
    requires AllMet(met, packets)
  {
    seq(|packets|, i requires 0 <= i < |packets| => KeptAs(met, packets[i]))
  }

  lemma PlaceStays(met: seq<Meeting>, all: seq<Meeting>, id: Uint32)
    requires met <= all && Met(met, id)
    ensures Met(all, id) && PlaceOf(all, id) == PlaceOf(met, id)
  {
    var i := PlaceOf(met, id);
    assert forall j :: 0 <= j <= i ==> all[j] == met[j];
    assert all[i].id == id;
  }

  /** The mapping numbers the interfaces met, and the writer knows them as they were met. */
  ghost predicate Follows(met: seq<Meeting>, idMap: map<Uint32, Uint32>, w: WriterState) {
    && |met| == |idMap|
    && (forall id :: id in idMap <==> Met(met, id))
    && (forall id :: id in idMap ==>
          && idMap[id] == PlaceOf(met, id)
          && idMap[id] in w.interfaces && w.interfaces[idMap[id]] == met[idMap[id]].info)
  }

  lemma FollowsMeeting(met: seq<Meeting>, idMap: map<Uint32, Uint32>, w: WriterState, r: ReaderState, id: Uint32)
    requires Follows(met, idMap, w) && MapsInto(idMap, w) && id !in idMap
    requires InterfaceOptions(w, Declaration(r, id).ifOpts).Ok?
    ensures Follows(Meet(met, r, id), idMap[id := w.nextInterface], After(w, Declaration(r, id)))
  {
    hide InterfaceOptions;
    RoomForAnother(idMap, id);
    var opts := Declaration(r, id).ifOpts;
    ConfigureInterfaceMeaning(opts);
    assert LastSetting(opts) == opts[0].res;
    FollowsMore(met, idMap, w, id, InForce(r, id));
  }

  lemma FollowsMore(met: seq<Meeting>, idMap: map<Uint32, Uint32>, w: WriterState, id: Uint32, info: WriterInterface)
    requires Follows(met, idMap, w) && MapsInto(idMap, w) && id !in idMap && |idMap| < TWO_32
    ensures Follows(met + [Meeting(id, info)], idMap[id := w.nextInterface], WithNewInterface(w, info))
  {
    hide PlaceOf;
    var all, idMap1 := met + [Meeting(id, info)], idMap[id := w.nextInterface];
    GrowSize(idMap, id, w.nextInterface);
    assert all[|met|].id == id;
    forall other
      ensures other in idMap1 <==> Met(all, other)
      ensures other in idMap1 ==> idMap1[other] == PlaceOf(all, other)
    {
      if other in idMap {
        PlaceStays(met, all, other);
      }
    }
    assert PlaceOf(all, id) == |met| by {
      assert forall i :: 0 <= i < |met| ==> all[i] == met[i];
    }
  }

  /** Every kept packet was written to the interface of its place of meeting, as it was then declared. */
  lemma {:induction false} CopyFollows(r: ReaderState, input: seq<Byte>, w: WriterState, idMap: map<Uint32, Uint32>,
                                       machine: Machine, clock: Time, met: seq<Meeting>)
    requires MapsInto(idMap, w) && Follows(met, idMap, w)
    ensures var all := Meetings(r, input, met);
            forall k :: k in CopyFrom(r, input, w, idMap, machine, clock).kept ==>
              Met(all, k.packet.interfaceId) && k == KeptAs(all, k.packet)
    decreases |input|, 0
  {
    hide NextPacket, InterfaceOptions, Declaration, MapsInto, After, Deliver, Follows, Met, KeptAs, Meet;
    var next := NextPacket(r, input);
    if next.outcome.Ok? {
      var pkt := next.outcome.value;
      FollowsMeet(met, idMap, w, next.state, pkt.interfaceId);
      if pkt.interfaceId in idMap {
        DeliveryFollows(next.state, next.rest, pkt, w, idMap, machine, clock, met);
      } else {
        var declaration := Declaration(next.state, pkt.interfaceId);
        if InterfaceOptions(w, declaration.ifOpts).Ok? {
          var w1, idMap1 := After(w, declaration), idMap[pkt.interfaceId := w.nextInterface];
          DeclarationKeepsMapping(w, idMap, next.state, pkt.interfaceId);
          FollowsMeeting(met, idMap, w, next.state, pkt.interfaceId);
          DeliveryFollows(next.state, next.rest, pkt, w1, idMap1, machine, clock, Meet(met, next.state, pkt.interfaceId));
        }
      }
    }
  }

  lemma FollowsMeet(met: seq<Meeting>, idMap: map<Uint32, Uint32>, w: WriterState, r: ReaderState, id: Uint32)
    ensures Follows(met, idMap, w) && id in idMap ==> Meet(met, r, id) == met
  {
  }

  lemma {:induction false} DeliveryFollows(r: ReaderState, rest: seq<Byte>, pkt: Packet, w: WriterState,
                                           idMap: map<Uint32, Uint32>, machine: Machine, clock: Time, met: seq<Meeting>)
    requires MapsInto(idMap, w) && Follows(met, idMap, w) && pkt.interfaceId in idMap
    ensures var all := Meetings(r, rest, met);
            forall k :: k in Deliver(r, rest, pkt, w, idMap, machine, clock).kept ==>
              Met(all, k.packet.interfaceId) && k == KeptAs(all, k.packet)
    decreases |rest|, 1
  {
    hide WritePacketBytes, MapsInto, CopyFrom, Meetings, Met, KeptAs, Follows;
    var run := Deliver(r, rest, pkt, w, idMap, machine, clock);
    var others := CopyFrom(r, rest, w, idMap, machine, clock);
    CopyFollows(r, rest, w, idMap, machine, clock, met);
    KnownInterface(idMap, w, pkt.interfaceId);
    var k := Kept(pkt, idMap[pkt.interfaceId], w.interfaces[idMap[pkt.interfaceId]]);
    KeptAtPlace(met, idMap, w, Meetings(r, rest, met), k);
    if machine(pkt.data) == Some(true) && run.kept != [] {
      assert run.kept == [k] + others.kept;
    }
  }

  lemma KeptAtPlace(met: seq<Meeting>, idMap: map<Uint32, Uint32>, w: WriterState, all: seq<Meeting>, k: Kept)
    requires Follows(met, idMap, w) && met <= all && k.packet.interfaceId in idMap
    requires var outId := idMap[k.packet.interfaceId];
             k.outId == outId && outId in w.interfaces && k.info == w.interfaces[outId]
    ensures Met(all, k.packet.interfaceId) && k == KeptAs(all, k.packet)
  {
    hide PlaceOf;
    PlaceStays(met, all, k.packet.interfaceId);
    assert idMap[k.packet.interfaceId] == PlaceOf(met, k.packet.interfaceId);
  }

  lemma {:induction false} KeptPacketsForm(kept: seq<Kept>)
    ensures |KeptPackets(kept)| == |kept|
    ensures forall i :: 0 <= i < |kept| ==> KeptPackets(kept)[i] == kept[i].packet
  {
    if kept != [] {
      KeptPacketsForm(kept[1..]);
    }
  }

  function CopyOf(input: seq<Byte>, machine: Machine, clock: Time): CopyRun {
    CopyFrom(INITIAL, input, Start(DEFAULT_CONFIG), map[], machine, clock)
  }

  function OutputOf(input: seq<Byte>, machine: Machine, clock: Time): seq<Byte> {
    SectionBytes(DEFAULT_CONFIG) + RunBytes(Start(DEFAULT_CONFIG), CopyOf(input, machine, clock).calls)
  }

  function PassingOf(input: seq<Byte>, machine: Machine): seq<Packet> {
    Passing(ReadAll(INITIAL, input).packets, machine)
  }

  /** A copy that succeeds keeps exactly the packets that pass, each on the interface of its place of
      meeting, as the input declared that when it was met. */
  lemma KeptIsPassing(input: seq<Byte>, machine: Machine, clock: Time)
    requires CopyOf(input, machine, clock).outcome.Ok?
    ensures var met, passing := Meetings(INITIAL, input, []), PassingOf(input, machine);
            && AllMet(met, passing)
            && CopyOf(input, machine, clock).kept == KeptAll(met, passing)
            && Sound(Start(DEFAULT_CONFIG), map[], CopyOf(input, machine, clock))
            && forall p, q :: p in passing && q in passing ==>
                 (KeptAs(met, p).outId == KeptAs(met, q).outId <==> p.interfaceId == q.interfaceId)
  {
    hide CopyFrom, Meetings, Passing, ReadAll, KeptPackets, Sound, Met, KeptAs;
    var run, met, passing := CopyOf(input, machine, clock), Meetings(INITIAL, input, []), PassingOf(input, machine);
    MapsIntoStart();
    NothingMet();
    CopyKeepsPassing(INITIAL, input, Start(DEFAULT_CONFIG), map[], machine, clock);
    CopyFollows(INITIAL, input, Start(DEFAULT_CONFIG), map[], machine, clock, []);
    CopyCarries(INITIAL, input, Start(DEFAULT_CONFIG), map[], machine, clock);
    KeptPacketsForm(run.kept);
    forall p | p in passing
      ensures Met(met, p.interfaceId) && KeptAs(met, p) in run.kept && KeptAs(met, p).packet == p
    {
      var i :| 0 <= i < |passing| && passing[i] == p;
      assert run.kept[i] in run.kept;
    }
    forall i | 0 <= i < |passing|
      ensures run.kept[i] == KeptAs(met, passing[i])
    {
      assert run.kept[i] in run.kept;
    }
    forall p, q | p in passing && q in passing
      ensures KeptAs(met, p).outId == KeptAs(met, q).outId <==> p.interfaceId == q.interfaceId
    {
      OneInterfaceEach(run, KeptAs(met, p), KeptAs(met, q));
    }
  }

  lemma NothingMet()
    ensures Follows([], map[], Start(DEFAULT_CONFIG))
  {
  }

  lemma OneInterfaceEach(run: CopyRun, a: Kept, b: Kept)
    requires Sound(Start(DEFAULT_CONFIG), map[], run) && a in run.kept && b in run.kept
    ensures a.outId == b.outId <==> a.packet.interfaceId == b.packet.interfaceId
  {
    hide Carries, FinalState;
  }

  /** The copy's promise, and exactly when it is kept. Reading the output of a successful copy gives the
      packets of the input that pass, in order, each cut and stamped as its interface was declared when it
      was first met, and then end of file, if and only if every one of them can be stored under that
      declaration; and two of them share an output interface exactly when they shared an input interface. */
  lemma CopyReadsBack(input: seq<Byte>, machine: Machine, clock: Time)
    requires CopyOf(input, machine, clock).outcome.Ok?
    ensures var met, passing := Meetings(INITIAL, input, []), PassingOf(input, machine);
            && AllMet(met, passing)
            && (ReadAll(INITIAL, OutputOf(input, machine, clock)) == Contents(CopiedAll(KeptAll(met, passing)), Eof)
                <==> forall p :: p in passing ==> Storable(KeptAs(met, p)))
            && forall p, q :: p in passing && q in passing ==>
                 (KeptAs(met, p).outId == KeptAs(met, q).outId <==> p.interfaceId == q.interfaceId)
  {
    hide CopyFrom, Meetings, PassingOf, ReadAll, CopiedAll, Sound, KeptAs, Storable, Met, RunBytes, SectionBytes;
    KeptIsPassing(input, machine, clock);
    CarriedReadsBack(CopyOf(input, machine, clock));
    KeptMembers(Meetings(INITIAL, input, []), PassingOf(input, machine));
  }

  lemma KeptMembers(met: seq<Meeting>, packets: seq<Packet>)
    requires AllMet(met, packets)
    ensures forall p :: p in packets ==> KeptAs(met, p) in KeptAll(met, packets)
    ensures forall k :: k in KeptAll(met, packets) ==> exists p :: p in packets && k == KeptAs(met, p)
  {
    hide KeptAs;
    forall p | p in packets
      ensures KeptAs(met, p) in KeptAll(met, packets)
    {
      var i :| 0 <= i < |packets| && packets[i] == p;
      assert KeptAll(met, packets)[i] == KeptAs(met, p);
    }
    forall k | k in KeptAll(met, packets)
      ensures exists p :: p in packets && k == KeptAs(met, p)
    {
      var i :| 0 <= i < |packets| && KeptAll(met, packets)[i] == k;
      assert packets[i] in packets;
    }
  }

  // ---- When a copy changes nothing --------------------------------------------------------

  /** The same packets as far as data and timestamps go. */
  predicate SameTraffic(contents: Contents, packets: seq<Packet>) {
    && contents.end == Eof && |contents.packets| == |packets|
    && forall i :: 0 <= i < |packets| ==>
         contents.packets[i].data == packets[i].data && contents.packets[i].timestamp == packets[i].timestamp
  }

  /** A packet fits the declaration under which its interface was first met: its data the snap length, and
      the block it makes; its timestamp the resolution. */
  predicate FitsMeeting(met: seq<Meeting>, p: Packet)
    requires Met(met, p.interfaceId)
  {
    var info := met[PlaceOf(met, p.interfaceId)].info;
    && (info.snapLen == 0 || |p.data| <= info.snapLen) && SizeFits(|p.data|)
    && InRange(p.timestamp, info.tsRes) && (info.tsRes == NANOSECOND || p.timestamp.nanos % 1_000 == 0)
  }

  /** A successful copy gives back exactly the passing packets with their data and timestamps if and only
      if every one of them fits the declaration under which its interface was first met. */
  lemma CopyIsFaithful(input: seq<Byte>, machine: Machine, clock: Time)
    requires CopyOf(input, machine, clock).outcome.Ok?
    ensures var met, passing := Meetings(INITIAL, input, []), PassingOf(input, machine);
            && AllMet(met, passing)
            && (SameTraffic(ReadAll(INITIAL, OutputOf(input, machine, clock)), passing)
                <==> forall p :: p in passing ==> FitsMeeting(met, p))
  {
    hide CopyFrom, Meetings, PassingOf, ReadAll, CopiedAll, Sound, Storable, Met, RunBytes, SectionBytes, KeptAs, FitsMeeting,
      Copied, InRange;
    var met, passing := Meetings(INITIAL, input, []), PassingOf(input, machine);
    var run, contents := CopyOf(input, machine, clock), ReadAll(INITIAL, OutputOf(input, machine, clock));
    KeptIsPassing(input, machine, clock);
    CarriedReadsBack(run);
    KeptMembers(met, passing);
    forall p | p in passing
      ensures var k := KeptAs(met, p);
              FitsMeeting(met, p)
              <==> Storable(k) && Copied(k).data == p.data && Copied(k).timestamp == p.timestamp
    {
      FitsExactly(met, p);
    }
    if forall k :: k in run.kept ==> Storable(k) {
      CopiedAllForm(run.kept);
      forall i | 0 <= i < |passing|
        ensures contents.packets[i] == Copied(KeptAs(met, passing[i])) && passing[i] in passing
      {
        assert run.kept[i] == KeptAs(met, passing[i]);
      }
    } else {
      GarbledDiffers(met, passing, contents);
      var k :| k in run.kept && !Storable(k);
      var p :| p in passing && k == KeptAs(met, p);
    }
  }

  lemma GarbledDiffers(met: seq<Meeting>, packets: seq<Packet>, contents: Contents)
    requires AllMet(met, packets) && Garbled(KeptAll(met, packets), contents.packets)
    ensures !SameTraffic(contents, packets)
  {
    hide InRange, Met;
    var kept := KeptAll(met, packets);
    var i :| 0 <= i < |kept| &&
      (i < |contents.packets| ==> !InRange(kept[i].packet.timestamp, kept[i].info.tsRes)
                                  && InRange(contents.packets[i].timestamp, kept[i].info.tsRes));
    assert kept[i].packet == packets[i];
  }

  lemma FitsExactly(met: seq<Meeting>, p: Packet)
    requires Met(met, p.interfaceId)
    ensures var k := KeptAs(met, p);
            FitsMeeting(met, p) <==> Storable(k) && Copied(k).data == p.data && Copied(k).timestamp == p.timestamp
  {
    hide InRange, PadLength;
    var k := KeptAs(met, p);
    assert p.data[..|p.data|] == p.data;
    assert |Copied(k).data| == CapturedLength(p.data, k.info.snapLen);
  }

  // ---- When a copy succeeds ---------------------------------------------------------------

  predicate AllSupported(met: seq<Meeting>) {
    forall i :: 0 <= i < |met| ==> Supported(met[i].info.tsRes)
  }

  lemma {:induction false} MoreSupported(r: ReaderState, input: seq<Byte>, met: seq<Meeting>)
    ensures AllSupported(Meetings(r, input, met)) ==> AllSupported(met)
  {
    hide Meetings;
    var all := Meetings(r, input, met);
    assert forall i :: 0 <= i < |met| ==> all[i] == met[i];
  }

  /** The writer takes a declaration exactly when it can stamp in its resolution. */
  lemma DeclarationAccepted(w: WriterState, met: seq<Meeting>, r: ReaderState, id: Uint32)
    requires w.defaultRes == MICROSECOND && !Met(met, id) && AllSupported(met)
    ensures InterfaceOptions(w, Declaration(r, id).ifOpts).Ok? <==> AllSupported(Meet(met, r, id))
  {
    var opts := Declaration(r, id).ifOpts;
    ConfigureInterfaceMeaning(opts);
    assert opts[..0] == [] && opts[1..] == [];
    assert RawOptions(opts) == RawOptions(opts[1..]) == [];
    assert LastSetting(opts) == opts[0].res == InForce(r, id).tsRes;
    assert forall o :: o in opts ==> !IsRawResolution(o);
    var all := Meet(met, r, id);
    assert all[|met|].info == InForce(r, id);
  }

  /** A copy succeeds exactly when its input can be read to the end, the machine has an answer for every
      packet, and every interface met was declared in nanoseconds or microseconds. */
  lemma {:induction false} CopySucceeds(r: ReaderState, input: seq<Byte>, w: WriterState, idMap: map<Uint32, Uint32>,
                                        machine: Machine, clock: Time, met: seq<Meeting>)
    requires MapsInto(idMap, w) && Follows(met, idMap, w) && AllSupported(met)
    ensures CopyFrom(r, input, w, idMap, machine, clock).outcome.Ok? <==>
              && ReadAll(r, input).end == Eof
              && (forall p :: p in ReadAll(r, input).packets ==> machine(p.data).Some?)
              && AllSupported(Meetings(r, input, met))
    decreases |input|, 0
  {
    hide NextPacket, InterfaceOptions, Declaration, MapsInto, After, Deliver, Follows, Met, Meet, AllSupported;
    var next := NextPacket(r, input);
    if next.outcome.Ok? {
      var pkt := next.outcome.value;
      var met1, others := Meet(met, next.state, pkt.interfaceId), ReadAll(next.state, next.rest);
      assert ReadAll(r, input).packets == [pkt] + others.packets;
      FollowsMeet(met, idMap, w, next.state, pkt.interfaceId);
      if pkt.interfaceId in idMap {
        DeliverySucceeds(next.state, next.rest, pkt, w, idMap, machine, clock, met1);
      } else {
        var declaration := Declaration(next.state, pkt.interfaceId);
        MapsIntoDefault(idMap, w);
        FollowsNot(met, idMap, w, pkt.interfaceId);
        DeclarationAccepted(w, met, next.state, pkt.interfaceId);
        if InterfaceOptions(w, declaration.ifOpts).Ok? {
          DeclarationKeepsMapping(w, idMap, next.state, pkt.interfaceId);
          FollowsMeeting(met, idMap, w, next.state, pkt.interfaceId);
          DeliverySucceeds(next.state, next.rest, pkt, After(w, declaration), idMap[pkt.interfaceId := w.nextInterface],
                           machine, clock, met1);
        } else {
          MoreSupported(next.state, next.rest, met1);
        }
      }
    }
  }

  lemma FollowsNot(met: seq<Meeting>, idMap: map<Uint32, Uint32>, w: WriterState, id: Uint32)
    requires Follows(met, idMap, w) && id !in idMap
    ensures !Met(met, id)
  {
  }

  lemma {:induction false} DeliverySucceeds(r: ReaderState, rest: seq<Byte>, pkt: Packet, w: WriterState,
                                            idMap: map<Uint32, Uint32>, machine: Machine, clock: Time, met: seq<Meeting>)
    requires MapsInto(idMap, w) && Follows(met, idMap, w) && pkt.interfaceId in idMap && AllSupported(met)
    ensures Deliver(r, rest, pkt, w, idMap, machine, clock).outcome.Ok? <==>
              && machine(pkt.data).Some?
              && ReadAll(r, rest).end == Eof
              && (forall p :: p in ReadAll(r, rest).packets ==> machine(p.data).Some?)
              && AllSupported(Meetings(r, rest, met))
    decreases |rest|, 1
  {
    hide MapsInto, CopyFrom, Meetings, ReadAll, Follows, AllSupported, PacketBytes, Ticks;
    CopySucceeds(r, rest, w, idMap, machine, clock, met);
    KnownInterface(idMap, w, pkt.interfaceId);
  }

  /** So whether a copy succeeds can be told from the input and the machine. */
  lemma CopySucceedsExactly(input: seq<Byte>, machine: Machine, clock: Time)
    ensures var contents := ReadAll(INITIAL, input);
            CopyOf(input, machine, clock).outcome.Ok? <==>
              && contents.end == Eof
              && (forall p :: p in contents.packets ==> machine(p.data).Some?)
              && AllSupported(Meetings(INITIAL, input, []))
  {
    hide CopyFrom, ReadAll, Meetings;
    MapsIntoStart();
    NothingMet();
    CopySucceeds(INITIAL, input, Start(DEFAULT_CONFIG), map[], machine, clock, []);
  }

  // ---- Copying an ordinary capture --------------------------------------------------------

  /** No further section header follows, no interface id comes round again, and every packet belongs to an
      interface already declared, is no longer than its snap length, and leaves room for the end-of-options
      mark that the copy writes. */
  ghost predicate Ordinary(s: ReaderState, input: seq<Byte>)
    decreases |input|
  {
    StepConsumes(s, input);
    var step := NextStep(s, input);
    step.outcome.Ok? ==>
      && !step.outcome.value.SectionBlock?
      && (step.outcome.value.InterfaceBlock? ==> s.nextInterface + 1 < TWO_32)
      && (step.outcome.value.PacketBlock? ==> WithinSnap(s, step.outcome.value.packet))
      && Ordinary(step.state, step.rest)
  }

  predicate WithinSnap(s: ReaderState, p: EnhancedPacket) {
    && p.interfaceId in s.interfaces && SizeFits(p.capturedLen)
    && (s.interfaces[p.interfaceId].block.snapLen == 0 || p.capturedLen <= s.interfaces[p.interfaceId].block.snapLen)
  }

  ghost predicate Inside(s: ReaderState, input: seq<Byte>) {
    s.order.Some? && NumberedOnce(s) && Ordinary(s, input)
  }

  ghost predicate Extends(s: ReaderState, later: ReaderState) {
    forall id :: id in s.interfaces ==> id in later.interfaces && later.interfaces[id] == s.interfaces[id]
  }

  /** The interfaces of the section so far are too few for an id to come round again. */
  ghost predicate NumberedOnce(s: ReaderState) {
    exists seen: seq<InterfaceDescription> :: |seen| < TWO_32 && NumberedBy(s, seen)
  }

  lemma NumberedOnceIds(s: ReaderState)
    requires NumberedOnce(s)
    ensures forall id :: id in s.interfaces ==> id < s.nextInterface && s.interfaces[id].tsRes != 0
  {
    hide NumberedBy, Declares, LatestOf;
    var seen: seq<InterfaceDescription> :| |seen| < TWO_32 && NumberedBy(s, seen);
    NextNumber(s, seen);
    forall id | id in s.interfaces
      ensures id < s.nextInterface && s.interfaces[id].tsRes != 0
    {
      KnownByNumber(s, seen, id);
      var k := DeclaredAt(seen, id);
      Numbers(s, seen, k);
    }
  }

  lemma StepNumbersOnce(s: ReaderState, input: seq<Byte>)
    requires NumberedOnce(s)
    requires var outcome := NextStep(s, input).outcome;
             outcome.Ok? && outcome.value.InterfaceBlock? ==> s.nextInterface + 1 < TWO_32
    ensures NumberedOnce(NextStep(s, input).state)
  {
    hide NextStep, NumberedBy;
    var step := NextStep(s, input);
    var seen: seq<InterfaceDescription> :| |seen| < TWO_32 && NumberedBy(s, seen);
    NextNumber(s, seen);
    StepNumbers(s, input, seen);
    assert NumberedBy(step.state, if step.outcome.Ok? then Since(seen, step.outcome.value) else seen);
  }

  lemma OrdinaryStep(s: ReaderState, input: seq<Byte>)
    requires Inside(s, input) && NextStep(s, input).outcome.Ok?
    ensures var step := NextStep(s, input);
            && Inside(step.state, step.rest) && Extends(s, step.state)
            && (step.outcome.value.PacketBlock? ==> step.state == s && WithinSnap(s, step.outcome.value.packet))
  {
    hide GetUint32, SectionStep, InterfaceResolution, ReadBody, ParseInterface, ParseOptions, PadLength, NumberedOnce, WithinSnap, BlockStep;
    StepConsumes(s, input);
    NumberedOnceIds(s);
    StepNumbersOnce(s, input);
    var header := ReadFull(input, 8);
    var order := s.order.value;
    SectionConsumes(s, header.bytes.value, header.rest);
    BlockConsumes(s, order, GetUint32(order, header.bytes.value[..4]), GetUint32(order, header.bytes.value[4..8]),
                  header.rest);
  }

  /** What an ordinary packet looks like when it is read. */
  ghost predicate OrdinaryPacket(r: ReaderState, p: Packet) {
    && p.interfaceId in r.interfaces
    && SizeFits(|p.data|)
    && var info := r.interfaces[p.interfaceId];
       && (info.block.snapLen == 0 || |p.data| <= info.block.snapLen)
       && (Supported(info.tsRes) ==>
             && InRange(p.timestamp, info.tsRes)
             && (info.tsRes == NANOSECOND || p.timestamp.nanos % 1_000 == 0))
  }

  lemma {:induction false} NextOrdinaryPacket(s: ReaderState, input: seq<Byte>)
    requires Inside(s, input) && NextPacket(s, input).outcome.Ok?
    ensures var next := NextPacket(s, input);
            && Inside(next.state, next.rest) && Extends(s, next.state)
            && OrdinaryPacket(next.state, next.outcome.value)
    decreases |input|
  {
    hide NextStep, Inside, TimestampAt, InRange, PadLength;
    StepConsumes(s, input);
    OrdinaryStep(s, input);
    var step := NextStep(s, input);
    InsideIsNumbered(s, input);
    if step.outcome.value.PacketBlock? {
      var epb := step.outcome.value.packet;
      var res := s.interfaces[epb.interfaceId].tsRes;
      if Supported(res) {
        TimestampsAreInRange(epb.timestampHigh, epb.timestampLow, res);
      }
      PacketDataLength(s, input);
    } else {
      NextOrdinaryPacket(step.state, step.rest);
    }
  }

  lemma InsideIsNumbered(s: ReaderState, input: seq<Byte>)
    requires Inside(s, input)
    ensures NumberedOnce(s)
  {
  }

  lemma PacketDataLength(s: ReaderState, input: seq<Byte>)
    requires NextStep(s, input).outcome.Ok? && NextStep(s, input).outcome.value.PacketBlock?
    ensures var p := NextStep(s, input).outcome.value.packet; |p.packetData| == p.capturedLen
  {
    hide GetUint32, SectionStep, ReadBody, ParseInterface, ParsePacket;
    var header := ReadFull(input, 8);
    SectionConsumes(s, header.bytes.value, header.rest);
  }

  /** The output interfaces copy the input interfaces they stand for. */
  ghost predicate Mirrors(r: ReaderState, w: WriterState, idMap: map<Uint32, Uint32>) {
    forall id :: id in idMap ==>
      && id in r.interfaces && idMap[id] in w.interfaces
      && w.interfaces[idMap[id]] == WriterInterface(r.interfaces[id].block.linkType, r.interfaces[id].block.snapLen,
                                                    r.interfaces[id].tsRes)
  }

  /** A packet of the input on its output interface, data and timestamp as they were. */
  function Unchanged(k: Kept): Packet {
    Packet(k.outId, k.packet.data, k.packet.timestamp, |k.packet.data| % TWO_32, |k.packet.data| % TWO_32, [])
  }

  ghost predicate Intact(k: Kept) {
    && Storable(k)
    && Copied(k) == Unchanged(k)
  }

  lemma {:induction false} OrdinaryCopy(r: ReaderState, input: seq<Byte>, w: WriterState, idMap: map<Uint32, Uint32>,
                                        machine: Machine, clock: Time)
    requires Inside(r, input) && MapsInto(idMap, w) && Mirrors(r, w, idMap)
    ensures forall k :: k in CopyFrom(r, input, w, idMap, machine, clock).kept ==> Intact(k)
    decreases |input|, 0
  {
    hide NextPacket, InterfaceOptions, Declaration, Storable, MapsInto, After, Deliver, Intact, Inside, OrdinaryPacket;
    var next := NextPacket(r, input);
    if next.outcome.Ok? {
      var pkt := next.outcome.value;
      NextOrdinaryPacket(r, input);
      if pkt.interfaceId in idMap {
        OrdinaryDelivery(next.state, next.rest, pkt, w, idMap, machine, clock);
      } else {
        var declaration := Declaration(next.state, pkt.interfaceId);
        if InterfaceOptions(w, declaration.ifOpts).Ok? {
          var w1, idMap1 := After(w, declaration), idMap[pkt.interfaceId := w.nextInterface];
          DeclarationKeepsMapping(w, idMap, next.state, pkt.interfaceId);
          OrdinaryIsDeclared(next.state, pkt);
          InsideIsNumbered(next.state, next.rest);
          DeclarationMirrors(next.state, w, idMap, pkt.interfaceId);
          OrdinaryDelivery(next.state, next.rest, pkt, w1, idMap1, machine, clock);
        }
      }
    }
  }

  lemma OrdinaryIsDeclared(r: ReaderState, p: Packet)
    requires OrdinaryPacket(r, p)
    ensures p.interfaceId in r.interfaces
  {
  }

  lemma DeclarationMirrors(r: ReaderState, w: WriterState, idMap: map<Uint32, Uint32>, id: Uint32)
    requires Mirrors(r, w, idMap) && MapsInto(idMap, w) && id !in idMap && id in r.interfaces && NumberedOnce(r)
    requires InterfaceOptions(w, Declaration(r, id).ifOpts).Ok?
    ensures Mirrors(r, After(w, Declaration(r, id)), idMap[id := w.nextInterface])
  {
    hide InterfaceOptions, PadLength, NumberedOnce;
    NumberedOnceIds(r);
    RoomForAnother(idMap, id);
    var opts := Declaration(r, id).ifOpts;
    ConfigureInterfaceMeaning(opts);
    assert LastSetting(opts) == opts[0].res == r.interfaces[id].tsRes;
  }

  lemma {:induction false} OrdinaryDelivery(r: ReaderState, rest: seq<Byte>, pkt: Packet, w: WriterState,
                                            idMap: map<Uint32, Uint32>, machine: Machine, clock: Time)
    requires Inside(r, rest) && OrdinaryPacket(r, pkt)
    requires MapsInto(idMap, w) && Mirrors(r, w, idMap) && pkt.interfaceId in idMap
    ensures forall k :: k in Deliver(r, rest, pkt, w, idMap, machine, clock).kept ==> Intact(k)
    decreases |rest|, 1
  {
    hide WritePacketBytes, MapsInto, CopyFrom, Inside, Intact, OrdinaryPacket;
    var run := Deliver(r, rest, pkt, w, idMap, machine, clock);
    var others := CopyFrom(r, rest, w, idMap, machine, clock);
    OrdinaryCopy(r, rest, w, idMap, machine, clock);
    KnownInterface(idMap, w, pkt.interfaceId);
    var kept := Kept(pkt, idMap[pkt.interfaceId], w.interfaces[idMap[pkt.interfaceId]]);
    OrdinaryIsIntact(r, kept);
    if machine(pkt.data) == Some(true) && run.kept != [] {
      assert run.kept == [kept] + others.kept;
    }
  }

  lemma OrdinaryIsIntact(r: ReaderState, k: Kept)
    requires OrdinaryPacket(r, k.packet)
    requires var info := r.interfaces[k.packet.interfaceId];
             k.info == WriterInterface(info.block.linkType, info.block.snapLen, info.tsRes) && Supported(info.tsRes)
    ensures Intact(k)
  {
    hide PadLength;
    assert k.packet.data[..|k.packet.data|] == k.packet.data;
  }

  /** An input that is one ordinary section. */
  ghost predicate OrdinaryInput(input: seq<Byte>) {
    && NextStep(INITIAL, input).outcome.Ok?
    && Ordinary(NextStep(INITIAL, input).state, NextStep(INITIAL, input).rest)
  }

  lemma OrdinaryKept(input: seq<Byte>, machine: Machine, clock: Time)
    requires OrdinaryInput(input)
    ensures forall k :: k in CopyOf(input, machine, clock).kept ==> Intact(k)
  {
    hide NextStep, Ordinary, MapsInto, CopyFrom, Inside, Intact;
    var step := NextStep(INITIAL, input);
    StepConsumes(INITIAL, input);
    FirstStep(input, machine, clock);
    MapsIntoStart();
    OrdinaryCopy(step.state, step.rest, Start(DEFAULT_CONFIG), map[], machine, clock);
  }

  function UnchangedAll(kept: seq<Kept>): seq<Packet> {
    seq(|kept|, i requires 0 <= i < |kept| => Unchanged(kept[i]))
  }

  /** On a capture of one section whose packets are within their interfaces' snap lengths, of any size, a
      copy that succeeds gives every passing packet back with its data and its timestamp unchanged, and then
      end of file. Its options are dropped, and its original length becomes the captured one. */
  lemma OrdinaryCopyIsFaithful(input: seq<Byte>, machine: Machine, clock: Time)
    requires OrdinaryInput(input) && CopyOf(input, machine, clock).outcome.Ok?
    ensures var met, passing := Meetings(INITIAL, input, []), PassingOf(input, machine);
            && AllMet(met, passing)
            && ReadAll(INITIAL, OutputOf(input, machine, clock)) == Contents(UnchangedAll(KeptAll(met, passing)), Eof)
            && SameTraffic(ReadAll(INITIAL, OutputOf(input, machine, clock)), passing)
  {
    hide CopyFrom, Meetings, PassingOf, ReadAll, CopiedAll, Sound, Met, RunBytes, SectionBytes, KeptAs, Storable, Copied,
      OrdinaryInput, Unchanged;
    var met, passing := Meetings(INITIAL, input, []), PassingOf(input, machine);
    var kept := CopyOf(input, machine, clock).kept;
    OrdinaryKept(input, machine, clock);
    KeptIsPassing(input, machine, clock);
    CarriedReadsBack(CopyOf(input, machine, clock));
    CopiedAllForm(kept);
    forall i | 0 <= i < |passing|
      ensures CopiedAll(kept)[i] == Unchanged(KeptAs(met, passing[i]))
      ensures Unchanged(KeptAs(met, passing[i])).data == passing[i].data
      ensures Unchanged(KeptAs(met, passing[i])).timestamp == passing[i].timestamp
    {
      assert kept[i] in kept && kept[i] == KeptAs(met, passing[i]) && passing[i] in passing;
      IntactIsUnchanged(kept[i]);
      UnchangedTraffic(met, passing[i]);
    }
    assert CopiedAll(kept) == UnchangedAll(KeptAll(met, passing));
  }

  lemma IntactIsUnchanged(k: Kept)
    requires Intact(k)
    ensures Copied(k) == Unchanged(k)
  {
  }

  lemma UnchangedTraffic(met: seq<Meeting>, p: Packet)
    requires Met(met, p.interfaceId)
    ensures Unchanged(KeptAs(met, p)).data == p.data && Unchanged(KeptAs(met, p)).timestamp == p.timestamp
  {
  }

  lemma FirstStep(input: seq<Byte>, machine: Machine, clock: Time)
    requires OrdinaryInput(input)
    ensures var step := NextStep(INITIAL, input);
            && Inside(step.state, step.rest)
            && CopyFrom(INITIAL, input, Start(DEFAULT_CONFIG), map[], machine, clock)
               == CopyFrom(step.state, step.rest, Start(DEFAULT_CONFIG), map[], machine, clock)
  {
    hide GetUint32, SectionStep, BlockStep, Ordinary, Deliver, InterfaceOptions;
    var header := ReadFull(input, 8);
    SectionConsumes(INITIAL, header.bytes.value, header.rest);
    StepConsumes(INITIAL, input);
    assert NumberedBy(INITIAL, []);
    StepNumbersOnce(INITIAL, input);
  }

  // ---- A later section --------------------------------------------------------------------

  /** A section with one interface of the given snap length and one packet on it. */
  function Capture(snapLen: Uint32, data: seq<Byte>): seq<Byte> {
    SectionBytes(DEFAULT_CONFIG)
    + (InterfaceBytes(Start(DEFAULT_CONFIG), 1, snapLen, [])
       + Frame(LittleEndian, ENHANCED_PACKET_BLOCK,
               PacketBody(LittleEndian, 0, 0, 0, |data| % TWO_32, |data| % TWO_32, data, [])))
  }

  /** Its packet, taken at the epoch. */
  function CapturedPacket(data: seq<Byte>): Packet {
    Packet(0, data, Time(0, 0), |data| % TWO_32, |data| % TWO_32, [])
  }

  lemma CaptureReads(s: ReaderState, snapLen: Uint32, data: seq<Byte>, rest: seq<Byte>)
    requires |data| < 0x1000_0000
    ensures var next := NextPacket(s, Capture(snapLen, data) + rest);
            && next.outcome == Ok(CapturedPacket(data)) && next.rest == rest
            && InForce(next.state, 0) == WriterInterface(1, snapLen, MICROSECOND)
  {
    hide NextStep, SectionBytes, Frame, InterfaceBody, PacketBody, SectionBody;
    var interface := InterfaceBytes(Start(DEFAULT_CONFIG), 1, snapLen, []);
    var body := PacketBody(LittleEndian, 0, 0, 0, |data|, |data|, data, []);
    var packet := Frame(LittleEndian, ENHANCED_PACKET_BLOCK, body);
    assert Capture(snapLen, data) + rest == SectionBytes(DEFAULT_CONFIG) + (interface + (packet + rest));
    DefaultSectionReadable();
    SectionReadsBack(s, DEFAULT_CONFIG, interface + (packet + rest));
    var s1 := NextStep(s, Capture(snapLen, data) + rest).state;
    PlainInterfaceFits(snapLen);
    InterfaceBlockReadsBack(s1, LittleEndian, 1, snapLen, [], packet + rest);
    var s2 := NextStep(s1, interface + (packet + rest)).state;
    PlainPacketSize(LittleEndian, 0, |data|, |data|, data);
    PacketBlockReadsBack(s2, LittleEndian, 0, 0, 0, |data|, data, [], rest);
    assert OptionResolution([]) == 0;
    NextOfThree(s, Capture(snapLen, data) + rest);
  }

  lemma PlainInterfaceFits(snapLen: Uint32)
    ensures Fits(InterfaceBody(LittleEndian, 1, snapLen, []))
  {
    hide PutUint16, PutUint32;
    EncodeOptionListEnd(LittleEndian);
  }

  /** A packet that is the third block. */
  lemma NextOfThree(s: ReaderState, input: seq<Byte>)
    ensures var one := NextStep(s, input);
            var two := NextStep(one.state, one.rest);
            var three := NextStep(two.state, two.rest);
            one.outcome.Ok? && !one.outcome.value.PacketBlock? && two.outcome.Ok? && !two.outcome.value.PacketBlock?
            && three.outcome.Ok? && three.outcome.value.PacketBlock? ==>
              NextPacket(s, input)
              == PacketStep(three.state, three.rest, Ok(ToPacket(three.state, three.outcome.value.packet)))
  {
    hide NextStep;
    var one := NextStep(s, input);
    var two := NextStep(one.state, one.rest);
    var three := NextStep(two.state, two.rest);
    StepConsumes(s, input);
    StepConsumes(one.state, one.rest);
    if three.outcome.Ok? && three.outcome.value.PacketBlock? {
      assert NextPacket(two.state, two.rest)
             == PacketStep(three.state, three.rest, Ok(ToPacket(three.state, three.outcome.value.packet)));
    }
  }

  lemma {:induction false} EverythingPasses(packets: seq<Packet>, machine: Machine)
    requires forall p :: p in packets ==> machine(p.data) == Some(true)
    ensures Passing(packets, machine) == packets
  {
    if packets != [] {
      assert packets[0] in packets;
      EverythingPasses(packets[1..], machine);
    }
  }

  /** Two sections, one after the other: both packets are read, and interface 0 is met as the first of
      them declares it. */
  lemma TwoCapturesRead(first: seq<Byte>, second: seq<Byte>, snapLen: Uint32, larger: Uint32)
    requires |first| < 0x1000_0000 && |second| < 0x1000_0000
    ensures var input := Capture(snapLen, first) + Capture(larger, second);
            && ReadAll(INITIAL, input) == Contents([CapturedPacket(first), CapturedPacket(second)], Eof)
            && Meetings(INITIAL, input, []) == [Meeting(0, WriterInterface(1, snapLen, MICROSECOND))]
  {
    hide Capture, NextPacket, CapturedPacket;
    var input := Capture(snapLen, first) + Capture(larger, second);
    CaptureReads(INITIAL, snapLen, first, Capture(larger, second));
    var next := NextPacket(INITIAL, input);
    assert Capture(larger, second) + [] == Capture(larger, second);
    CaptureReads(next.state, larger, second, []);
    var last := NextPacket(next.state, next.rest);
    NothingLeft(last.state);
    OnInterfaceZero(first);
    OnInterfaceZero(second);
    var met := [Meeting(0, WriterInterface(1, snapLen, MICROSECOND))];
    assert met[0].id == 0 && !Met([], 0);
    assert Meet([], next.state, 0) == met && Meet(met, last.state, 0) == met;
    assert Meetings(INITIAL, input, []) == Meetings(next.state, next.rest, met);
    assert Meetings(next.state, next.rest, met) == Meetings(last.state, [], met);
    assert Meetings(last.state, [], met) == met;
    var packets := [CapturedPacket(first), CapturedPacket(second)];
    assert ReadAll(next.state, next.rest).packets == [packets[1]] + [];
    assert ReadAll(INITIAL, input).packets == [packets[0]] + [packets[1]] == packets;
  }

  lemma OnInterfaceZero(data: seq<Byte>)
    ensures CapturedPacket(data).interfaceId == 0
  {
  }

  /** Both packets under the first declaration: the first as it was, the second cut. */
  lemma TwoCapturesKept(first: seq<Byte>, second: seq<Byte>, snapLen: Uint32)
    requires |first| <= snapLen < |second| < 0x1000_0000 && snapLen > 0
    ensures var met := [Meeting(0, WriterInterface(1, snapLen, MICROSECOND))];
            var packets := [CapturedPacket(first), CapturedPacket(second)];
            && AllMet(met, packets)
            && (forall p :: p in packets ==> Storable(KeptAs(met, p)))
            && CopiedAll(KeptAll(met, packets))
               == [CapturedPacket(first), Packet(0, second[..snapLen], Time(0, 0), snapLen, |second|, [])]
  {
    hide PadLength;
    var met := [Meeting(0, WriterInterface(1, snapLen, MICROSECOND))];
    var packets := [CapturedPacket(first), CapturedPacket(second)];
    assert met[0].id == 0;
    var kept := [Kept(packets[0], 0, met[0].info), Kept(packets[1], 0, met[0].info)];
    assert KeptAll(met, packets) == kept;
    assert first[..|first|] == first;
    assert Copied(kept[0]) == packets[0];
    CopiedAllForm(kept);
  }

  /** A later section that declares interface 0 anew, with a larger snap length, is copied under the old
      declaration: its packet, longer than the old snap length, comes back cut. */
  lemma LaterSectionIsCut(first: seq<Byte>, second: seq<Byte>, snapLen: Uint32, larger: Uint32, clock: Time)
    requires |first| <= snapLen < |second| <= larger < 0x1000_0000 && snapLen > 0
    ensures var input, all := Capture(snapLen, first) + Capture(larger, second), (_ => Some(true));
            && ReadAll(INITIAL, input) == Contents([CapturedPacket(first), CapturedPacket(second)], Eof)
            && CopyOf(input, all, clock).outcome.Ok?
            && ReadAll(INITIAL, OutputOf(input, all, clock))
               == Contents([CapturedPacket(first),
                            Packet(0, second[..snapLen], Time(0, 0), snapLen, |second|, [])], Eof)
            && !SameTraffic(ReadAll(INITIAL, OutputOf(input, all, clock)), PassingOf(input, all))
  {
    hide Capture, CopyFrom, ReadAll, Meetings, OutputOf, CopiedAll, KeptAs, KeptAll, Storable;
    var input, all := Capture(snapLen, first) + Capture(larger, second), (_ => Some(true));
    TwoCapturesRead(first, second, snapLen, larger);
    TwoCapturesKept(first, second, snapLen);
    EverythingPasses(ReadAll(INITIAL, input).packets, all);
    CopySucceedsExactly(input, all, clock);
    CopyReadsBack(input, all, clock);
    assert PassingOf(input, all)[1].data == second;
  }
}
