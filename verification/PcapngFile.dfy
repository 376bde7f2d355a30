/** A whole file item by item: the section header, each interface with the resolution it is read in, each
    packet. It reads back as it was written exactly when its header and every call can be read back. */
module PcapngFile {
  import opened Wrappers
  import opened Bytes
  import opened PcapngBlocks
  import opened PcapngWriter
  import opened PcapngReader
  import opened PcapngRoundTrip

  /** What a reader has of a block. Of a resolution it only tells the nanosecond from the others. */
  datatype Item =
    | SectionItem(section: SectionHeader)
    | InterfaceItem(description: InterfaceDescription, nanoseconds: bool)
    | PacketItem(packet: Packet)

  /** A block just read, in the state after it. */
  function Shown(s: ReaderState, b: Block): Item {
    match b
    case SectionBlock(section) => SectionItem(section)
    case InterfaceBlock(d) => InterfaceItem(d, InterfaceResolution(d.options) == NANOSECOND)
    case PacketBlock(epb) => PacketItem(ToPacket(s, epb))
  }

  datatype Listing = Listing(items: seq<Item>, end: ReadError)

  /** Every item of an input, and the error that ends it. */
  function ReadItems(s: ReaderState, input: seq<Byte>): Listing
    decreases |input|
  {
    StepConsumes(s, input);
    var step := NextStep(s, input);
    match step.outcome
    case Err(e) => Listing([], e)
    case Ok(b) =>
      var others := ReadItems(step.state, step.rest);
      Listing([Shown(step.state, b)] + others.items, others.end)
  }

  function Packets(items: seq<Item>): seq<Packet> {
    if items == [] then []
    else (if items[0].PacketItem? then [items[0].packet] else []) + Packets(items[1..])
  }

  /** The packets among the items are those that ReadPacket gives. */
  lemma {:induction false} ItemsHoldPackets(s: ReaderState, input: seq<Byte>)
    ensures var listing := ReadItems(s, input);
            ReadAll(s, input) == Contents(Packets(listing.items), listing.end)
    decreases |input|
  {
    hide NextStep, ReadAll, ToPacket;
    StepConsumes(s, input);
    ReadAllStep(s, input);
    var step := NextStep(s, input);
    if step.outcome.Ok? {
      var others := ReadItems(step.state, step.rest);
      ItemsHoldPackets(step.state, step.rest);
      assert ([Shown(step.state, step.outcome.value)] + others.items)[1..] == others.items;
    }
  }

  // ---- What was written -------------------------------------------------------------------

  /** The item that a call means: none when it fails. No packet can be written in a resolution that is not
      supported, so that there is nothing to agree on. */
  function MeantItems(w: WriterState, call: Call): seq<Item> {
    match call
    case AddInterface(linkType, snapLen, opts) =>
      (match InterfaceOptions(w, opts)
       case Err(_) => []
       case Ok(written) =>
         var total := FrameLength(InterfaceBody(w.order, linkType, snapLen, written));
         [InterfaceItem(InterfaceDescription(total, w.nextInterface, linkType, 0, snapLen, written),
                        if Supported(EffectiveResolution(w, opts)) then EffectiveResolution(w, opts) == NANOSECOND
                        else InterfaceResolution(written) == NANOSECOND)])
    case WritePacket(_, _, _, _, _) => if Meant(w, call) == [] then [] else [PacketItem(Meant(w, call)[0])]
  }

  function WrittenItems(w: WriterState, calls: seq<Call>): seq<Item>
    decreases |calls|
  {
    if calls == [] then [] else MeantItems(w, calls[0]) + WrittenItems(After(w, calls[0]), calls[1..])
  }

  lemma {:induction false} PacketsConcat(a: seq<Item>, b: seq<Item>)
    ensures Packets(a + b) == Packets(a) + Packets(b)
  {
    hide Packets;
    if a == [] {
      assert a + b == b;
      PacketsOf([], b);
    } else {
      PacketsConcat(a[1..], b);
      PacketsOf([a[0]], a[1..]);
      PacketsOf([a[0]], a[1..] + b);
      assert [a[0]] + a[1..] == a && [a[0]] + (a[1..] + b) == a + b;
    }
  }

  /** At most one item in front. */
  lemma PacketsOf(front: seq<Item>, b: seq<Item>)
    requires |front| <= 1
    ensures Packets(front) == if front != [] && front[0].PacketItem? then [front[0].packet] else []
    ensures Packets(front + b) == Packets(front) + Packets(b)
  {
    if front == [] {
      assert front + b == b;
    } else {
      assert (front + b)[1..] == b && front[1..] == [];
    }
  }

  /** The packets among the items written are those of the calls. */
  lemma {:induction false} WrittenHoldPackets(w: WriterState, calls: seq<Call>)
    ensures Packets(WrittenItems(w, calls)) == Written(w, calls)
    decreases |calls|
  {
    hide After, InterfaceOptions;
    if calls != [] {
      WrittenHoldPackets(After(w, calls[0]), calls[1..]);
      PacketsConcat(MeantItems(w, calls[0]), WrittenItems(After(w, calls[0]), calls[1..]));
      MeantHoldsPackets(w, calls[0]);
    }
  }

  lemma MeantHoldsPackets(w: WriterState, call: Call)
    ensures Packets(MeantItems(w, call)) == Meant(w, call)
  {
    hide InterfaceOptions, CapturedLength, Truncate;
    if call.WritePacket? && Meant(w, call) != [] {
      assert [PacketItem(Meant(w, call)[0])][1..] == [];
    }
  }

  // ---- One call ---------------------------------------------------------------------------

  /** A call that fails has nothing to read back. */
  lemma SilentCall(w: WriterState, r: ReaderState, call: Call)
    requires Simulates(w, r) && CallBytes(w, call) == []
    ensures Readable(w, call) && After(w, call) == w && MeantItems(w, call) == []
  {
    hide InterfaceBody, PacketBody, PutUint32, Encodable;
    match call
    case AddInterface(_, _, _) =>
    case WritePacket(id, data, ts, now, options) =>
      if id in w.interfaces && Supported(w.interfaces[id].tsRes) {
        var stamp := if ts == ZERO_TIME then now else ts;
        TimestampReadsBack(stamp, w.interfaces[id].tsRes);
      }
  }

  /** The block of a call shows what the call meant exactly when the call is readable; what follows it is then
      untouched, and the interface tables are in step. */
  lemma CallShows(w: WriterState, r: ReaderState, call: Call, rest: seq<Byte>)
    requires Simulates(w, r) && CallBytes(w, call) != []
    ensures |MeantItems(w, call)| == 1
    ensures var step := NextStep(r, CallBytes(w, call) + rest);
            && (step.outcome.Ok? && Shown(step.state, step.outcome.value) == MeantItems(w, call)[0] <==> Readable(w, call))
            && (Readable(w, call) ==> step.rest == rest && Simulates(After(w, call), step.state))
  {
    match call
    case AddInterface(_, _, _) => InterfaceShows(w, r, call, rest);
    case WritePacket(_, _, _, _, _) => PacketShows(w, r, call, rest);
  }

  lemma InterfaceShows(w: WriterState, r: ReaderState, call: Call, rest: seq<Byte>)
    requires Simulates(w, r) && call.AddInterface? && CallBytes(w, call) != []
    ensures |MeantItems(w, call)| == 1
    ensures var step := NextStep(r, CallBytes(w, call) + rest);
            && (step.outcome.Ok? && Shown(step.state, step.outcome.value) == MeantItems(w, call)[0] <==> Readable(w, call))
            && (Readable(w, call) ==> step.rest == rest && Simulates(After(w, call), step.state))
  {
    hide NextStep, Frame, InterfaceBody, Encodable, ResolutionOf, OptionResolution;
    var written := InterfaceOptions(w, call.ifOpts).value;
    InterfaceBlockReadsBack(r, w.order, call.linkType, call.snapLen, written, rest);
    InterfaceResolutionReadsBack(w, call.ifOpts);
    EffectiveIsSupported(w, call.ifOpts);
  }

  lemma EffectiveIsSupported(w: WriterState, opts: seq<InterfaceOption>)
    requires Supported(w.defaultRes) && InterfaceOptions(w, opts).Ok?
    ensures EffectiveResolution(w, opts) != 0
  {
  }

  lemma PacketShows(w: WriterState, r: ReaderState, call: Call, rest: seq<Byte>)
    requires Simulates(w, r) && call.WritePacket? && CallBytes(w, call) != []
    ensures |MeantItems(w, call)| == 1
    ensures var step := NextStep(r, CallBytes(w, call) + rest);
            && (step.outcome.Ok? && Shown(step.state, step.outcome.value) == MeantItems(w, call)[0] <==> Readable(w, call))
            && (Readable(w, call) ==> step.rest == rest && Simulates(After(w, call), step.state))
  {
    hide NextStep, Frame, PacketBody, Encodable, TimestampAt;
    var WritePacket(id, data, ts, now, options) := call;
    var info := w.interfaces[id];
    var stamp := if ts == ZERO_TIME then now else ts;
    var n := CapturedLength(data, info.snapLen);
    TimestampReadsBack(stamp, info.tsRes);
    var (high, low) := EncodeTimestamp(stamp, info.tsRes).value;
    PacketBodySize(w.order, id, high, low, n, |data| % TWO_32, data[..n], options);
    PacketBlockReadsBack(r, w.order, id, high, low, |data| % TWO_32, data[..n], options, rest);
    OnlyNanosecondsDiffer(high, low, info.tsRes, r.interfaces[id].tsRes);
    var body := PacketBody(w.order, id, high, low, n, |data| % TWO_32, data[..n], options);
    var input := Frame(w.order, ENHANCED_PACKET_BLOCK, body) + rest;
    var outcome := NextStep(r, input).outcome;
    if outcome.Ok? && outcome.value.PacketBlock? && outcome.value.packet.packetData == data[..n]
       && outcome.value.packet.options == options {
      FramedLength(r, w.order, ENHANCED_PACKET_BLOCK, body, rest);
      PacketBodyHolds(w.order, id, high, low, |data| % TWO_32, data[..n], options);
      ReadWhatWasWritten(r, input, outcome.value, body);
    }
  }

  // ---- Whole files ------------------------------------------------------------------------

  lemma {:induction false} RunShowsExactly(w: WriterState, r: ReaderState, calls: seq<Call>)
    requires Simulates(w, r)
    ensures ReadItems(r, RunBytes(w, calls)) == Listing(WrittenItems(w, calls), Eof) <==> AllReadable(w, calls)
    decreases |calls|
  {
    hide Simulates, Readable, CallBytes, After, MeantItems, NextStep, Shown;
    if calls == [] {
      NothingToRead(r);
    } else {
      var call, rest := calls[0], RunBytes(After(w, calls[0]), calls[1..]);
      var bytes := CallBytes(w, call);
      if bytes == [] {
        SilentCall(w, r, call);
        assert bytes + rest == rest;
        RunShowsExactly(w, r, calls[1..]);
      } else {
        CallShows(w, r, call, rest);
        StepConsumes(r, bytes + rest);
        if Readable(w, call) {
          RunShowsExactly(After(w, call), NextStep(r, bytes + rest).state, calls[1..]);
        }
        HeadShows(MeantItems(w, call)[0], WrittenItems(After(w, call), calls[1..]), r, bytes + rest);
      }
    }
  }

  lemma NothingToRead(r: ReaderState)
    ensures ReadItems(r, []) == Listing([], Eof)
  {
  }

  /** A listing begins with an item exactly when the first block shows it. */
  lemma HeadShows(item: Item, others: seq<Item>, r: ReaderState, input: seq<Byte>)
    ensures var step := NextStep(r, input);
            ReadItems(r, input) == Listing([item] + others, Eof)
            <==> step.outcome.Ok? && Shown(step.state, step.outcome.value) == item
                 && ReadItems(step.state, step.rest) == Listing(others, Eof)
  {
    hide NextStep, Shown;
    StepConsumes(r, input);
    var step := NextStep(r, input);
    if step.outcome.Ok? {
      var rest := ReadItems(step.state, step.rest);
      var first := Shown(step.state, step.outcome.value);
      assert ([first] + rest.items)[0] == first && ([first] + rest.items)[1..] == rest.items;
      assert ([item] + others)[0] == item && ([item] + others)[1..] == others;
    }
  }

  /** The exact round trip of a file. Whatever the options of the writer and the calls made on it, the reader
      finds the header, the interfaces and the packets as they were meant, and then end of file, exactly when
      every option encodes, every block fits its length field, every timestamp its field, and no raw
      if_tsresol contradicts the resolution in force. */
  lemma FileReadsBackExactly(opts: seq<WriterOption>, calls: seq<Call>)
    requires ConfigureWriter(opts).Ok?
    ensures var cfg := ConfigureWriter(opts).value;
            ReadItems(INITIAL, SectionBytes(cfg) + RunBytes(Start(cfg), calls))
              == Listing([SectionItem(MeantSection(cfg))] + WrittenItems(Start(cfg), calls), Eof)
            <==> SectionReadable(cfg) && AllReadable(Start(cfg), calls)
  {
    hide RunBytes, SectionBytes, AllReadable, Simulates, ReadItems, NextStep, WrittenItems, MeantSection, SectionReadable;
    var cfg := ConfigureWriter(opts).value;
    var bytes := RunBytes(Start(cfg), calls);
    SectionReadsBack(INITIAL, cfg, bytes);
    HeadShows(SectionItem(MeantSection(cfg)), WrittenItems(Start(cfg), calls), INITIAL, SectionBytes(cfg) + bytes);
    if SectionReadable(cfg) {
      var s := ReaderState(Some(cfg.order), Some(MeantSection(cfg)), map[], 0);
      HeaderSimulates(cfg, s);
      RunShowsExactly(Start(cfg), s, calls);
    }
  }

  lemma HeaderSimulates(cfg: WriterConfig, s: ReaderState)
    requires Supported(cfg.defaultRes) && s.order == Some(cfg.order) && s.interfaces == map[] && s.nextInterface == 0
    ensures Simulates(Start(cfg), s)
  {
  }
}
