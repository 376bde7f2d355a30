/** What the writer writes, the reader reads back: per option list, per block, per timestamp,
    for whole files, and for files cut short. */
module PcapngRoundTrip {
  import opened Wrappers
  import opened Bytes
  import opened PcapngBlocks
  import opened PcapngWriter
  import opened PcapngReader

  // ---- Options ----------------------------------------------------------------------------

  predicate Encodable(options: seq<BlockOption>) {
    forall o :: o in options ==> o.code != OPTION_END && |o.value| < TWO_16
  }

  lemma OptionReadsBack(order: ByteOrder, o: BlockOption, rest: seq<Byte>)
    ensures |EncodeOption(order, o) + rest| >= 4
    ensures ParseOption(order, EncodeOption(order, o) + rest) == NextOption(o, rest)
       <==> o.code != OPTION_END && |o.value| < TWO_16
  {
    hide PutUint16, GetUint16, Zeros, PadLength;
    var code, length := PutUint16(order, o.code), PutUint16(order, |o.value| % TWO_16);
    var pad := Zeros(PadLength(|o.value|));
    var data := EncodeOption(order, o) + rest;
    OptionParts(code, length, o.value, pad, rest);
    if |o.value| < TWO_16 {
      Slices(o.value, pad + rest);
      Slices(pad, rest);
      assert GetUint16(order, data[..2]) == o.code && GetUint16(order, data[2..4]) == |o.value|;
    } else {
      assert GetUint16(order, data[2..4]) == |o.value| % TWO_16;
    }
  }

  lemma OptionParts(code: seq<Byte>, length: seq<Byte>, value: seq<Byte>, pad: seq<Byte>, rest: seq<Byte>)
    requires |code| == |length| == 2
    ensures var data := code + length + value + pad + rest;
            data[..2] == code && data[2..4] == length && data[4..] == value + (pad + rest)
  {
  }

  /** Options survive exactly when no code is the end-of-options mark and every value fits the
      16-bit length field. */
  lemma {:induction false} OptionsReadBack(order: ByteOrder, options: seq<BlockOption>)
    ensures ParseOptions(order, EncodeOptions(order, options)) == Ok(options) <==> Encodable(options)
  {
    hide EncodeOption, ParseOption;
    var end := PutUint16(order, OPTION_END) + PutUint16(order, 0);
    if options == [] {
      assert EncodeOptions(order, options) == end;
      EndMarkEndsOptions(order, end);
    } else {
      var o, others := options[0], options[1..];
      var data := EncodeOptions(order, options);
      assert data == EncodeOption(order, o) + EncodeOptions(order, others);
      OptionReadsBack(order, o, EncodeOptions(order, others));
      OptionsReadBack(order, others);
      assert options == [o] + others;
      var step := ParseOption(order, data);
      if step.NextOption? && ParseOptions(order, data) == Ok(options) {
        var tail := ParseOptions(order, step.rest);
        assert ([step.option] + tail.value)[0] == options[0];
        SameEncodingLength(order, step.option, o, data, step.rest, EncodeOptions(order, others));
        assert ([step.option] + tail.value)[1..] == tail.value;
      }
    }
  }

  lemma EndMarkEndsOptions(order: ByteOrder, end: seq<Byte>)
    requires end == PutUint16(order, OPTION_END) + PutUint16(order, 0)
    ensures ParseOptions(order, end) == Ok([])
  {
    Halves(PutUint16(order, OPTION_END), PutUint16(order, 0), 2);
  }

  /** Reading the right option leaves the right remainder. */
  lemma SameEncodingLength(order: ByteOrder, got: BlockOption, o: BlockOption, data: seq<Byte>, rest: seq<Byte>,
                           others: seq<Byte>)
    requires got == o && data == EncodeOption(order, o) + others
    requires |data| >= 4 && ParseOption(order, data) == NextOption(got, rest)
    ensures rest == others
  {
    OptionReadsBack(order, o, others);
  }

  // ---- Timestamps -------------------------------------------------------------------------

  function TickCount(ts: Time, resolution: int): int {
    if resolution == NANOSECOND then ts.unix * 1_000_000_000 + ts.nanos
    else ts.unix * 1_000_000 + ts.nanos / 1_000
  }

  /** Instants whose tick count fits the unsigned 64-bit field. */
  predicate InRange(ts: Time, resolution: int) {
    0 <= TickCount(ts, resolution) < TWO_64
  }

  function Truncate(ts: Time, resolution: int): Time {
    if resolution == NANOSECOND then ts else Time(ts.unix, ts.nanos / 1_000 * 1_000)
  }

  predicate Supported(resolution: int) {
    resolution == NANOSECOND || resolution == MICROSECOND
  }

  /** The reader only tells nanoseconds from everything else. */
  predicate Compatible(writerRes: int, readerRes: int) {
    Supported(writerRes) ==> (readerRes == NANOSECOND <==> writerRes == NANOSECOND)
  }

  /** A timestamp is read back, cut to the interface's resolution, exactly when it is in range. */
  lemma TimestampReadsBack(ts: Time, resolution: int)
    requires Supported(resolution)
    ensures EncodeTimestamp(ts, resolution).Ok?
    ensures var (high, low) := EncodeTimestamp(ts, resolution).value;
            TimestampAt(high, low, resolution) == Truncate(ts, resolution) <==> InRange(ts, resolution)
  {
    hide Ticks, TickCount, Truncate;
    var ticks := Ticks(ts, resolution);
    assert TWO_32 * (ticks / TWO_32) + ticks % TWO_32 == ticks;
    var per := if resolution == NANOSECOND then 1_000_000_000 else 1_000_000;
    SplitTicks(ts, resolution, ticks / per, ticks % per, per);
  }

  lemma SplitTicks(ts: Time, resolution: int, seconds: int, part: int, per: int)
    requires Supported(resolution) && per == if resolution == NANOSECOND then 1_000_000_000 else 1_000_000
    requires Ticks(ts, resolution) == seconds * per + part && 0 <= part < per
    ensures (seconds == ts.unix && (if resolution == NANOSECOND then part else part * 1_000) == Truncate(ts, resolution).nanos)
       <==> InRange(ts, resolution)
    ensures Truncate(ts, resolution).unix == ts.unix
  {
    var count := TickCount(ts, resolution);
    assert Ticks(ts, resolution) == count <==> 0 <= count < TWO_64;
    assert count == ts.unix * per + if resolution == NANOSECOND then ts.nanos else ts.nanos / 1_000;
  }

  /** Timestamps survive a writer and a reader that hold different resolutions for the interface
      exactly when the two agree on whether it is the nanosecond. */
  lemma ResolutionsMustAgree(writerRes: int, readerRes: int)
    requires Supported(writerRes)
    ensures (forall ts :: InRange(ts, writerRes) ==>
               var (high, low) := EncodeTimestamp(ts, writerRes).value;
               TimestampAt(high, low, readerRes) == Truncate(ts, writerRes))
       <==> Compatible(writerRes, readerRes)
  {
    if Compatible(writerRes, readerRes) {
      forall ts | InRange(ts, writerRes)
        ensures var (high, low) := EncodeTimestamp(ts, writerRes).value;
                TimestampAt(high, low, readerRes) == Truncate(ts, writerRes)
      {
        TimestampReadsBack(ts, writerRes);
      }
    } else {
      var ts := Time(1_000, 0);
      assert InRange(ts, writerRes);
    }
  }

  // ---- The resolution of an interface -----------------------------------------------------

  /** The setting in force after all options: the last nonempty raw if_tsresol or explicit
      resolution; 0 when there is none. */
  function LastSetting(opts: seq<InterfaceOption>): int {
    if opts == [] then 0
    else
      match opts[|opts| - 1]
      case WithInterfaceTimestampResolution(res) => res
      case WithInterfaceOption(code, value) =>
        if code == OPTION_IF_TSRESOL && |value| > 0 then ResolutionOf(value[0]) else LastSetting(opts[..|opts| - 1])
  }

  predicate IsRawResolution(opt: InterfaceOption) {
    opt.WithInterfaceOption? && opt.code == OPTION_IF_TSRESOL
  }

  /** The first nonempty raw if_tsresol among the options; 0 when there is none. */
  function FirstRaw(opts: seq<InterfaceOption>): int {
    if opts == [] then 0
    else if IsRawResolution(opts[0]) && |opts[0].value| > 0 then ResolutionOf(opts[0].value[0])
    else FirstRaw(opts[1..])
  }

  function RawOptions(opts: seq<InterfaceOption>): seq<BlockOption> {
    if opts == [] then []
    else
      match opts[0]
      case WithInterfaceOption(code, value) => [BlockOption(code, value)] + RawOptions(opts[1..])
      case _ => RawOptions(opts[1..])
  }

  lemma {:induction false} RawOptionsAppend(a: seq<InterfaceOption>, b: seq<InterfaceOption>)
    ensures RawOptions(a + b) == RawOptions(a) + RawOptions(b)
  {
    if a == [] {
      assert a + b == b;
    } else {
      assert (a + b)[1..] == a[1..] + b;
      RawOptionsAppend(a[1..], b);
    }
  }

  lemma {:induction false} ConfigureInterfaceMeaning(opts: seq<InterfaceOption>)
    ensures ConfigureInterface(opts) == InterfaceConfig(RawOptions(opts), LastSetting(opts),
                                                        exists o :: o in opts && IsRawResolution(o))
  {
    if opts != [] {
      var front, last := opts[..|opts| - 1], opts[|opts| - 1];
      ConfigureInterfaceMeaning(front);
      assert opts == front + [last];
      RawOptionsAppend(front, [last]);
      assert RawOptions([last][1..]) == [];
      if IsRawResolution(last) {
        assert last in opts;
      }
      assert forall o :: o in opts <==> o in front || o == last;
    }
  }

  lemma {:induction false} OptionResolutionOfRaw(opts: seq<InterfaceOption>)
    ensures OptionResolution(RawOptions(opts)) == FirstRaw(opts)
  {
    if opts != [] {
      OptionResolutionOfRaw(opts[1..]);
      if opts[0].WithInterfaceOption? {
        assert RawOptions(opts)[1..] == RawOptions(opts[1..]);
      }
    }
  }

  lemma {:induction false} AppendedResolution(options: seq<BlockOption>, value: Byte)
    requires OptionResolution(options) == 0
    requires forall o :: o in options ==> o.code != OPTION_IF_TSRESOL
    ensures OptionResolution(options + [BlockOption(OPTION_IF_TSRESOL, [value])]) == ResolutionOf(value)
  {
    var all := options + [BlockOption(OPTION_IF_TSRESOL, [value])];
    if options != [] {
      assert all[1..] == options[1..] + [BlockOption(OPTION_IF_TSRESOL, [value])];
      AppendedResolution(options[1..], value);
    }
  }

  lemma {:induction false} NoRawMeansNoOption(opts: seq<InterfaceOption>)
    requires forall o :: o in opts ==> !IsRawResolution(o)
    ensures FirstRaw(opts) == 0
    ensures forall o :: o in RawOptions(opts) ==> o.code != OPTION_IF_TSRESOL
  {
    if opts != [] {
      assert opts[0] in opts;
      NoRawMeansNoOption(opts[1..]);
    }
  }

  /** The condition on the caller's options under which the reader will stamp packets of the
      interface as the writer does: no raw if_tsresol at all, or a first one (absent or zero meaning
      the microsecond) that agrees with the setting in force. */
  predicate ResolutionReadsBack(defaultRes: int, opts: seq<InterfaceOption>) {
    || (forall o :: o in opts ==> !IsRawResolution(o))
    || Compatible(if LastSetting(opts) == 0 then defaultRes else LastSetting(opts),
                  if FirstRaw(opts) == 0 then MICROSECOND else FirstRaw(opts))
  }

  lemma InterfaceResolutionReadsBack(s: WriterState, opts: seq<InterfaceOption>)
    requires Supported(s.defaultRes)
    requires InterfaceOptions(s, opts).Ok?
    ensures Compatible(EffectiveResolution(s, opts), InterfaceResolution(InterfaceOptions(s, opts).value))
       <==> ResolutionReadsBack(s.defaultRes, opts)
  {
    hide ResolutionOf;
    ConfigureInterfaceMeaning(opts);
    OptionResolutionOfRaw(opts);
    StandardResolutions();
    if forall o :: o in opts ==> !IsRawResolution(o) {
      NoRawMeansNoOption(opts);
      var tsRes := EffectiveResolution(s, opts);
      if EncodeTimestampResolution(tsRes).Ok? {
        AppendedResolution(RawOptions(opts), EncodeTimestampResolution(tsRes).value);
      }
    }
  }

  /** A raw if_tsresol with no value hides the writer's nanosecond default from the reader. */
  lemma EmptyRawResolutionMisleads()
    ensures var s := WriterState(LittleEndian, NANOSECOND, map[], 0);
            var opts := [WithInterfaceOption(OPTION_IF_TSRESOL, [])];
            && InterfaceOptions(s, opts).Ok?
            && EffectiveResolution(s, opts) == NANOSECOND
            && InterfaceResolution(InterfaceOptions(s, opts).value) == MICROSECOND
            && !ResolutionReadsBack(s.defaultRes, opts)
  {
    var s := WriterState(LittleEndian, NANOSECOND, map[], 0);
    var opts := [WithInterfaceOption(OPTION_IF_TSRESOL, [])];
    assert opts[..0] == [] && opts[1..] == [];
    ConfigureInterfaceMeaning(opts);
    assert RawOptions(opts[1..]) == [];
    assert OptionResolution(RawOptions(opts)[1..]) == 0;
    assert opts[0] in opts && IsRawResolution(opts[0]);
    InterfaceResolutionReadsBack(s, opts);
  }

  // ---- Blocks -----------------------------------------------------------------------------

  predicate Fits(body: seq<Byte>) {
    8 + |body| + 4 < TWO_32
  }

  lemma FrameParts(order: ByteOrder, blockType: Uint32, body: seq<Byte>, rest: seq<Byte>)
    ensures var f := Frame(order, blockType, body) + rest;
            var tail := body + PutUint32(order, FrameLength(body)) + rest;
            && |f| >= 8 && f[8..] == tail
            && f[..8][..4] == PutUint32(order, blockType)
            && f[..8][4..8] == PutUint32(order, FrameLength(body))
  {
    hide PutUint32;
    var f := Frame(order, blockType, body) + rest;
    assert f[..8] == PutUint32(order, blockType) + PutUint32(order, FrameLength(body));
    Halves(PutUint32(order, blockType), PutUint32(order, FrameLength(body)), 4);
  }

  lemma TrailerAgrees(order: ByteOrder, body: seq<Byte>, minimum: nat)
    requires 4 <= minimum <= |body| + 4
    ensures Payload(order, FrameLength(body), body + PutUint32(order, FrameLength(body)), minimum) == Ok(body)
  {
    hide PutUint32, GetUint32;
    Slices(body, PutUint32(order, FrameLength(body)));
  }

  /** A framed block, as long as its length fits 32 bits, reaches its body parser intact. */
  lemma FrameReadsBack(s: ReaderState, order: ByteOrder, blockType: Uint32, body: seq<Byte>, rest: seq<Byte>)
    requires s.order == Some(order) && blockType != SECTION_HEADER_BLOCK && Fits(body)
    ensures var total := FrameLength(body);
            var framed := body + PutUint32(order, total);
            NextStep(s, Frame(order, blockType, body) + rest) ==
            if blockType == INTERFACE_DESCRIPTION_BLOCK then
              match ParseInterface(order, total, framed)
              case Err(e) => Step(s, rest, Err(e))
              case Ok(d) => Step(WithInterface(s, d.(id := s.nextInterface)), rest,
                                 Ok(InterfaceBlock(d.(id := s.nextInterface))))
            else if blockType == ENHANCED_PACKET_BLOCK then
              match ParsePacket(order, total, framed)
              case Err(e) => Step(s, rest, Err(e))
              case Ok(p) => Step(s, rest, Ok(PacketBlock(p)))
            else Step(s, rest, Err(UnsupportedBlockType(blockType)))
  {
    hide PutUint32, GetUint32, Frame, ParseInterface, ParsePacket, WithInterface;
    FrameParts(order, blockType, body, rest);
    var trailer := PutUint32(order, FrameLength(body));
    Slices(body + trailer, rest);
    assert [] + (body + trailer) == body + trailer;
  }

  // What a block that was read takes up, but for an end-of-options mark; it is never more than its length.

  function OptionsSize(options: seq<BlockOption>): nat {
    if options == [] then 0 else 4 + |options[0].value| + PadLength(|options[0].value|) + OptionsSize(options[1..])
  }

  lemma {:induction false} EncodedSize(order: ByteOrder, options: seq<BlockOption>)
    ensures |EncodeOptions(order, options)| == OptionsSize(options) + 4
  {
    hide PadLength;
    if options == [] {
      assert EncodeOptionList(order, options) == [];
    } else {
      EncodedSize(order, options[1..]);
      assert EncodeOptionList(order, options) == EncodeOption(order, options[0]) + EncodeOptionList(order, options[1..]);
    }
  }

  lemma {:induction false} ParsedOptionsFit(order: ByteOrder, data: seq<Byte>)
    requires ParseOptions(order, data).Ok?
    ensures Encodable(ParseOptions(order, data).value) && OptionsSize(ParseOptions(order, data).value) <= |data|
    decreases |data|
  {
    hide ParseOption, PadLength;
    if |data| >= 4 {
      var step := ParseOption(order, data);
      if step.NextOption? {
        ParsedOptionsFit(order, step.rest);
        var others := ParseOptions(order, step.rest).value;
        assert ([step.option] + others)[1..] == others;
      }
    }
  }

  function BlockSize(b: Block): nat {
    match b
    case SectionBlock(s) => 28 + OptionsSize(s.options)
    case InterfaceBlock(d) => 20 + OptionsSize(d.options)
    case PacketBlock(p) => 32 + |p.packetData| + PadLength(|p.packetData|) + OptionsSize(p.options)
  }

  function OptionsIn(b: Block): seq<BlockOption> {
    match b
    case SectionBlock(s) => s.options
    case InterfaceBlock(d) => d.options
    case PacketBlock(p) => p.options
  }

  lemma StepFits(s: ReaderState, input: seq<Byte>)
    ensures var outcome := NextStep(s, input).outcome;
            outcome.Ok? ==> Encodable(OptionsIn(outcome.value)) && BlockSize(outcome.value) <= outcome.value.TotalLength()
  {
    hide GetUint32, SectionStep, BlockStep, Encodable, PadLength;
    var header := ReadFull(input, 8);
    if header.bytes.Ok? {
      var hdr := header.bytes.value;
      var blockType := GetUint32(if s.order.Some? then s.order.value else LittleEndian, hdr[..4]);
      if blockType == SECTION_HEADER_BLOCK {
        SectionFits(s, hdr, header.rest);
      } else if s.order.Some? {
        BlockFits(s, s.order.value, blockType, GetUint32(s.order.value, hdr[4..8]), header.rest);
      }
    }
  }

  lemma SectionFits(s: ReaderState, header: seq<Byte>, input: seq<Byte>)
    requires |header| == 8
    ensures var outcome := SectionStep(s, header, input).outcome;
            outcome.Ok? ==>
              && outcome.value.SectionBlock? && Encodable(outcome.value.section.options)
              && 28 + OptionsSize(outcome.value.section.options) <= outcome.value.section.totalLength
  {
    hide GetUint32, GetUint16, GetUint64, MagicOrder, ReadFull, Encodable, OptionsSize, ParseOptions;
    var outcome := SectionStep(s, header, input).outcome;
    if outcome.Ok? {
      var bom := ReadFull(input, 4);
      var order := MagicOrder(GetUint32(BigEndian, bom.bytes.value)).value;
      var totalLength := GetUint32(order, header[4..8]);
      var payload := Payload(order, totalLength, ReadBody(totalLength, bom.bytes.value, bom.rest).bytes.value, 20).value;
      ParsedOptionsFit(order, payload[16..]);
    }
  }

  lemma BlockFits(s: ReaderState, order: ByteOrder, blockType: Uint32, totalLength: Uint32, input: seq<Byte>)
    ensures var outcome := BlockStep(s, order, blockType, totalLength, input).outcome;
            outcome.Ok? ==> Encodable(OptionsIn(outcome.value)) && BlockSize(outcome.value) <= outcome.value.TotalLength()
  {
    hide GetUint32, GetUint16, Encodable, OptionsSize, ParseOptions, PadLength, ReadFull, WithInterface;
    var body := ReadBody(totalLength, [], input).bytes;
    if body.Ok? {
      if blockType == INTERFACE_DESCRIPTION_BLOCK {
        var payload := Payload(order, totalLength, body.value, 12);
        if payload.Ok? && ParseOptions(order, payload.value[8..]).Ok? {
          ParsedOptionsFit(order, payload.value[8..]);
        }
      } else if blockType == ENHANCED_PACKET_BLOCK {
        PacketParseFits(order, totalLength, body.value);
      }
    }
  }

  lemma PacketParseFits(order: ByteOrder, totalLength: Uint32, body: seq<Byte>)
    ensures var p := ParsePacket(order, totalLength, body);
            p.Ok? ==> Encodable(p.value.options)
                      && 24 + |p.value.packetData| + PadLength(|p.value.packetData|) + OptionsSize(p.value.options) <= |body|
  {
    hide GetUint32, Encodable, OptionsSize, ParseOptions, PadLength;
    if ParsePacket(order, totalLength, body).Ok? {
      var data := Payload(order, totalLength, body, 24).value[20..];
      var n := |ParsePacket(order, totalLength, body).value.packetData|;
      ParsedOptionsFit(order, data[n + PadLength(n)..]);
    }
  }

  /** A block whose length field wraps cannot be read as what was written. */
  lemma ReadWhatWasWritten(s: ReaderState, input: seq<Byte>, b: Block, body: seq<Byte>)
    requires NextStep(s, input).outcome == Ok(b)
    requires 8 + |body| + 4 == BlockSize(b) + 4 && b.TotalLength() == FrameLength(body)
    ensures Encodable(OptionsIn(b)) && Fits(body)
  {
    hide NextStep, BlockSize, Encodable;
    StepFits(s, input);
  }

  /** Whatever is read of a frame, its length is the one that was written. */
  lemma FramedLength(s: ReaderState, order: ByteOrder, blockType: Uint32, body: seq<Byte>, rest: seq<Byte>)
    requires s.order == Some(order) && blockType != SECTION_HEADER_BLOCK
    ensures var outcome := NextStep(s, Frame(order, blockType, body) + rest).outcome;
            outcome.Ok? ==> outcome.value.TotalLength() == FrameLength(body)
  {
    hide PutUint32, GetUint32, Frame, BlockStep, SectionStep;
    FrameParts(order, blockType, body, rest);
    BlockConsumes(s, order, blockType, FrameLength(body), body + PutUint32(order, FrameLength(body)) + rest);
  }

  lemma InterfaceBodyParts(order: ByteOrder, linkType: Uint16, snapLen: Uint32, options: seq<BlockOption>)
    ensures var p := InterfaceBody(order, linkType, snapLen, options);
            && |p| >= 8 && p[..2] == PutUint16(order, linkType) && p[2..4] == PutUint16(order, 0)
            && p[4..8] == PutUint32(order, snapLen) && p[8..] == EncodeOptions(order, options)
  {
    hide PutUint16, PutUint32, EncodeOptions;
  }

  /** An interface block reads back, with the rest of the input untouched, exactly when its
      options are encodable and it fits a 32-bit length. */
  lemma InterfaceBlockReadsBack(s: ReaderState, order: ByteOrder, linkType: Uint16, snapLen: Uint32,
                                options: seq<BlockOption>, rest: seq<Byte>)
    requires s.order == Some(order)
    ensures var body := InterfaceBody(order, linkType, snapLen, options);
            var block := InterfaceDescription(FrameLength(body), s.nextInterface, linkType, 0, snapLen, options);
            NextStep(s, Frame(order, INTERFACE_DESCRIPTION_BLOCK, body) + rest)
              == Step(WithInterface(s, block), rest, Ok(InterfaceBlock(block)))
            <==> Encodable(options) && Fits(body)
    ensures var body := InterfaceBody(order, linkType, snapLen, options);
            var block := InterfaceDescription(FrameLength(body), s.nextInterface, linkType, 0, snapLen, options);
            NextStep(s, Frame(order, INTERFACE_DESCRIPTION_BLOCK, body) + rest).outcome == Ok(InterfaceBlock(block))
            <==> Encodable(options) && Fits(body)
  {
    hide PutUint16, PutUint32, GetUint16, GetUint32, EncodeOptions, NextStep, WithInterface, Frame, InterfaceBody;
    var body := InterfaceBody(order, linkType, snapLen, options);
    var framed := Frame(order, INTERFACE_DESCRIPTION_BLOCK, body);
    FrameSize(order, INTERFACE_DESCRIPTION_BLOCK, body);
    if Fits(body) {
      FrameReadsBack(s, order, INTERFACE_DESCRIPTION_BLOCK, body, rest);
      InterfaceBodyParts(order, linkType, snapLen, options);
      TrailerAgrees(order, body, 12);
      OptionsReadBack(order, options);
    } else {
      StepConsumes(s, framed + rest);
    }
    var block := InterfaceDescription(FrameLength(body), s.nextInterface, linkType, 0, snapLen, options);
    if NextStep(s, framed + rest).outcome == Ok(InterfaceBlock(block)) {
      InterfaceBodySize(order, linkType, snapLen, options);
      ReadWhatWasWritten(s, framed + rest, InterfaceBlock(block), body);
    }
  }

  lemma InterfaceBodySize(order: ByteOrder, linkType: Uint16, snapLen: Uint32, options: seq<BlockOption>)
    ensures |InterfaceBody(order, linkType, snapLen, options)| == 12 + OptionsSize(options)
  {
    hide PutUint16, PutUint32, EncodeOptions;
    EncodedSize(order, options);
  }

  lemma FrameSize(order: ByteOrder, blockType: Uint32, body: seq<Byte>)
    ensures |Frame(order, blockType, body)| == 8 + |body| + 4
  {
    hide PutUint32;
  }

  lemma PacketBodyParts(order: ByteOrder, id: Uint32, high: Uint32, low: Uint32, capturedLen: Uint32,
                        originalLen: Uint32, payload: seq<Byte>, options: seq<BlockOption>)
    requires |payload| == capturedLen
    ensures var p := PacketBody(order, id, high, low, capturedLen, originalLen, payload, options);
            && |p| >= 20
            && p[..4] == PutUint32(order, id) && p[4..8] == PutUint32(order, high)
            && p[8..12] == PutUint32(order, low) && p[12..16] == PutUint32(order, capturedLen)
            && p[16..20] == PutUint32(order, originalLen)
            && p[20..] == payload + Zeros(PadLength(capturedLen)) + EncodeOptions(order, options)
            && p[20..][..capturedLen] == payload
            && p[20..][capturedLen + PadLength(capturedLen)..] == EncodeOptions(order, options)
  {
    hide PutUint32, EncodeOptions, Zeros, PadLength;
    var p := PacketBody(order, id, high, low, capturedLen, originalLen, payload, options);
    var data := payload + Zeros(PadLength(capturedLen)) + EncodeOptions(order, options);
    assert p[20..] == data;
    Slices(payload + Zeros(PadLength(capturedLen)), EncodeOptions(order, options));
  }

  /** A packet block reads back exactly when its options are encodable and it fits. */
  lemma PacketBlockReadsBack(s: ReaderState, order: ByteOrder, id: Uint32, high: Uint32, low: Uint32,
                             originalLen: Uint32, payload: seq<Byte>, options: seq<BlockOption>, rest: seq<Byte>)
    requires s.order == Some(order) && |payload| < TWO_32
    ensures var body := PacketBody(order, id, high, low, |payload|, originalLen, payload, options);
            var block := EnhancedPacket(FrameLength(body), id, high, low, |payload|, originalLen, payload, options);
            NextStep(s, Frame(order, ENHANCED_PACKET_BLOCK, body) + rest) == Step(s, rest, Ok(PacketBlock(block)))
            <==> Encodable(options) && Fits(body)
    ensures var body := PacketBody(order, id, high, low, |payload|, originalLen, payload, options);
            var block := EnhancedPacket(FrameLength(body), id, high, low, |payload|, originalLen, payload, options);
            NextStep(s, Frame(order, ENHANCED_PACKET_BLOCK, body) + rest).outcome == Ok(PacketBlock(block))
            <==> Encodable(options) && Fits(body)
  {
    hide PutUint32, GetUint32, EncodeOptions, NextStep, Frame, PacketBody, Zeros;
    var body := PacketBody(order, id, high, low, |payload|, originalLen, payload, options);
    var framed := Frame(order, ENHANCED_PACKET_BLOCK, body);
    FrameSize(order, ENHANCED_PACKET_BLOCK, body);
    if Fits(body) {
      FrameReadsBack(s, order, ENHANCED_PACKET_BLOCK, body, rest);
      PacketBodyParts(order, id, high, low, |payload|, originalLen, payload, options);
      TrailerAgrees(order, body, 24);
      OptionsReadBack(order, options);
    } else {
      StepConsumes(s, framed + rest);
    }
    var block := EnhancedPacket(FrameLength(body), id, high, low, |payload|, originalLen, payload, options);
    if NextStep(s, framed + rest).outcome == Ok(PacketBlock(block)) {
      PacketBodyHolds(order, id, high, low, originalLen, payload, options);
      ReadWhatWasWritten(s, framed + rest, PacketBlock(block), body);
    }
  }

  lemma PacketBodyHolds(order: ByteOrder, id: Uint32, high: Uint32, low: Uint32, originalLen: Uint32,
                        payload: seq<Byte>, options: seq<BlockOption>)
    requires |payload| < TWO_32
    ensures |PacketBody(order, id, high, low, |payload|, originalLen, payload, options)|
            == 24 + |payload| + PadLength(|payload|) + OptionsSize(options)
  {
    hide PutUint32, EncodeOptions, PadLength;
    EncodedSize(order, options);
  }

  lemma SectionBodyParts(order: ByteOrder, major: Uint16, minor: Uint16, sectionLength: Int64,
                         options: seq<BlockOption>)
    ensures var p := SectionBody(order, major, minor, sectionLength, options);
            && |p| >= 16
            && p[..4] == PutUint32(BigEndian, Magic(order)) && p[4..6] == PutUint16(order, major)
            && p[6..8] == PutUint16(order, minor) && p[8..16] == PutUint64(order, SectionLengthField(sectionLength))
            && p[16..] == EncodeOptions(order, options)
  {
    hide PutUint16, PutUint32, PutUint64, EncodeOptions;
  }

  /** The header of a file. A negative section length comes back as -1. */
  function MeantSection(cfg: WriterConfig): SectionHeader {
    var body := SectionBody(cfg.order, cfg.major, cfg.minor, cfg.sectionLength, cfg.sectionOpts);
    SectionHeader(FrameLength(body), Magic(cfg.order), cfg.major, cfg.minor,
                  if cfg.sectionLength < 0 then -1 else cfg.sectionLength, cfg.sectionOpts)
  }

  predicate SectionReadable(cfg: WriterConfig) {
    && Encodable(cfg.sectionOpts)
    && Fits(SectionBody(cfg.order, cfg.major, cfg.minor, cfg.sectionLength, cfg.sectionOpts))
  }

  /** The section header is read as it was meant exactly when its options are encodable and it fits. It
      then tells the reader its byte order and starts an empty interface table, whatever was read before. */
  lemma SectionReadsBack(s: ReaderState, cfg: WriterConfig, rest: seq<Byte>)
    ensures NextStep(s, SectionBytes(cfg) + rest).outcome == Ok(SectionBlock(MeantSection(cfg))) <==> SectionReadable(cfg)
    ensures SectionReadable(cfg) ==>
              NextStep(s, SectionBytes(cfg) + rest)
              == Step(ReaderState(Some(cfg.order), Some(MeantSection(cfg)), map[], 0), rest,
                      Ok(SectionBlock(MeantSection(cfg))))
  {
    hide NextStep, SectionBytes, SectionBody;
    if SectionReadable(cfg) {
      ReadableSectionReadsBack(s, cfg, rest);
    }
    if NextStep(s, SectionBytes(cfg) + rest).outcome == Ok(SectionBlock(MeantSection(cfg))) {
      SectionBodyHolds(cfg.order, cfg.major, cfg.minor, cfg.sectionLength, cfg.sectionOpts);
      ReadWhatWasWritten(s, SectionBytes(cfg) + rest, SectionBlock(MeantSection(cfg)),
                         SectionBody(cfg.order, cfg.major, cfg.minor, cfg.sectionLength, cfg.sectionOpts));
    }
  }

  lemma SectionBodyHolds(order: ByteOrder, major: Uint16, minor: Uint16, sectionLength: Int64, options: seq<BlockOption>)
    ensures |SectionBody(order, major, minor, sectionLength, options)| == 20 + OptionsSize(options)
  {
    hide PutUint16, PutUint32, PutUint64, EncodeOptions;
    EncodedSize(order, options);
  }

  lemma ReadableSectionReadsBack(s: ReaderState, cfg: WriterConfig, rest: seq<Byte>)
    requires SectionReadable(cfg)
    ensures NextStep(s, SectionBytes(cfg) + rest)
            == Step(ReaderState(Some(cfg.order), Some(MeantSection(cfg)), map[], 0), rest,
                    Ok(SectionBlock(MeantSection(cfg))))
  {
    hide PutUint16, PutUint64, GetUint16, GetUint64, EncodeOptions, SectionBody, Frame, PutUint32, GetUint32,
      ParseSection, Encodable;
    var order := cfg.order;
    var body := SectionBody(order, cfg.major, cfg.minor, cfg.sectionLength, cfg.sectionOpts);
    var total := FrameLength(body);
    var trailer := PutUint32(order, total);
    FrameParts(order, SECTION_HEADER_BLOCK, body, rest);
    SectionBodyParts(order, cfg.major, cfg.minor, cfg.sectionLength, cfg.sectionOpts);
    SectionTypeIsPalindrome(order);
    MagicReadsBack(order);
    SectionParses(order, cfg, body, total);
    SplitSection(body, trailer, rest);
  }

  lemma SplitSection(body: seq<Byte>, trailer: seq<Byte>, rest: seq<Byte>)
    requires |body| >= 4
    ensures (body + trailer + rest)[..4] == body[..4]
    ensures body[..4] + (body + trailer + rest)[4..][..|body| + |trailer| - 4] == body + trailer
    ensures (body + trailer + rest)[4..][|body| + |trailer| - 4..] == rest
  {
  }

  lemma MagicReadsBack(order: ByteOrder)
    ensures MagicOrder(GetUint32(BigEndian, PutUint32(BigEndian, Magic(order)))) == Some(order)
  {
    hide PutUint32;
  }

  lemma SectionTypeIsPalindrome(order: ByteOrder)
    ensures forall other :: GetUint32(other, PutUint32(order, SECTION_HEADER_BLOCK)) == SECTION_HEADER_BLOCK
  {
  }

  lemma SectionParses(order: ByteOrder, cfg: WriterConfig, body: seq<Byte>, total: Uint32)
    requires order == cfg.order && total == FrameLength(body)
    requires body == SectionBody(order, cfg.major, cfg.minor, cfg.sectionLength, cfg.sectionOpts)
    requires Encodable(cfg.sectionOpts)
    ensures ParseSection(order, total, body + PutUint32(order, total))
         == Ok(SectionHeader(total, Magic(order), cfg.major, cfg.minor,
                             if cfg.sectionLength < 0 then -1 else cfg.sectionLength, cfg.sectionOpts))
  {
    hide PutUint16, PutUint32, PutUint64, GetUint16, GetUint32, GetUint64, EncodeOptions, SectionBody;
    SectionBodyParts(order, cfg.major, cfg.minor, cfg.sectionLength, cfg.sectionOpts);
    TrailerAgrees(order, body, 20);
    OptionsReadBack(order, cfg.sectionOpts);
  }

  // ---- Whole files ------------------------------------------------------------------------

  /** A call on an open writer. `now` is the clock at the time of the call. */
  datatype Call =
    | AddInterface(linkType: Uint16, snapLen: Uint32, ifOpts: seq<InterfaceOption>)
    | WritePacket(id: Uint32, data: seq<Byte>, ts: Time, now: Time, options: seq<BlockOption>)

  /** The bytes a call appends: none when it fails. */
  function CallBytes(w: WriterState, call: Call): seq<Byte> {
    match call
    case AddInterface(linkType, snapLen, opts) =>
      (match InterfaceOptions(w, opts)
       case Err(_) => []
       case Ok(written) => InterfaceBytes(w, linkType, snapLen, written))
    case WritePacket(id, data, ts, now, options) =>
      (match WritePacketBytes(w, id, data, ts, now, options)
       case Err(_) => []
       case Ok(bytes) => bytes)
  }

  function After(w: WriterState, call: Call): WriterState {
    match call
    case AddInterface(linkType, snapLen, opts) =>
      if InterfaceOptions(w, opts).Ok? then
        WithNewInterface(w, WriterInterface(linkType, snapLen, EffectiveResolution(w, opts)))
      else w
    case WritePacket(_, _, _, _, _) => w
  }

  function RunBytes(w: WriterState, calls: seq<Call>): seq<Byte>
    decreases |calls|
  {
    if calls == [] then [] else CallBytes(w, calls[0]) + RunBytes(After(w, calls[0]), calls[1..])
  }

  /** The packet that a successful WritePacket means. */
  function Meant(w: WriterState, call: Call): seq<Packet> {
    match call
    case AddInterface(_, _, _) => []
    case WritePacket(id, data, ts, now, options) =>
      if id !in w.interfaces || !Supported(StampResolution(w, id)) then []
      else
        var n := CapturedLength(data, w.interfaces[id].snapLen);
        [Packet(id, data[..n], Truncate(if ts == ZERO_TIME then now else ts, StampResolution(w, id)), n,
                |data| % TWO_32, options)]
  }

  function StampResolution(w: WriterState, id: Uint32): int
    requires id in w.interfaces
  {
    if w.interfaces[id].tsRes == 0 then w.defaultRes else w.interfaces[id].tsRes
  }

  function Written(w: WriterState, calls: seq<Call>): seq<Packet>
    decreases |calls|
  {
    if calls == [] then [] else Meant(w, calls[0]) + Written(After(w, calls[0]), calls[1..])
  }

  /** What a caller must respect for a successful call to be readable. */
  predicate Readable(w: WriterState, call: Call) {
    match call
    case AddInterface(linkType, snapLen, opts) =>
      (match InterfaceOptions(w, opts)
       case Err(_) => true
       case Ok(written) =>
         && Encodable(written)
         && Fits(InterfaceBody(w.order, linkType, snapLen, written))
         && ResolutionReadsBack(w.defaultRes, opts))
    case WritePacket(id, data, ts, now, options) =>
      id in w.interfaces && Supported(StampResolution(w, id)) ==>
        var n := CapturedLength(data, w.interfaces[id].snapLen);
        && Encodable(options)
        && Fits(PacketBody(w.order, id, 0, 0, n, |data| % TWO_32, data[..n], options))
        && InRange(if ts == ZERO_TIME then now else ts, StampResolution(w, id))
  }

  predicate AllReadable(w: WriterState, calls: seq<Call>)
    decreases |calls|
  {
    calls == [] || (Readable(w, calls[0]) && AllReadable(After(w, calls[0]), calls[1..]))
  }

  function Start(cfg: WriterConfig): WriterState {
    WriterState(cfg.order, cfg.defaultRes, map[], 0)
  }

  /** The two interface tables in step. */
  ghost predicate Simulates(w: WriterState, r: ReaderState) {
    && Supported(w.defaultRes)
    && r.order == Some(w.order)
    && r.nextInterface == w.nextInterface
    && r.interfaces.Keys == w.interfaces.Keys
    && forall id :: id in w.interfaces ==>
         && r.interfaces[id].block.linkType == w.interfaces[id].linkType
         && r.interfaces[id].block.snapLen == w.interfaces[id].snapLen
         && w.interfaces[id].tsRes != 0
         && r.interfaces[id].tsRes != 0
         && Compatible(w.interfaces[id].tsRes, r.interfaces[id].tsRes)
  }

  /** Reading the bytes of one call: a block that keeps the tables in step, then what follows. */
  lemma CallReadsBack(w: WriterState, r: ReaderState, call: Call, rest: seq<Byte>) returns (r': ReaderState)
    requires Simulates(w, r) && Readable(w, call)
    ensures Simulates(After(w, call), r')
    ensures var others := ReadAll(r', rest);
            ReadAll(r, CallBytes(w, call) + rest) == Contents(Meant(w, call) + others.packets, others.end)
    ensures CallBytes(w, call) != [] ==>
              var step := NextStep(r, CallBytes(w, call) + rest);
              step.outcome.Ok? && step.rest == rest
  {
    hide ReadAll, NextStep, Frame, InterfaceBody, PacketBody, Encodable, ResolutionOf, TimestampAt;
    var others := ReadAll(r, rest);
    ReadAllStep(r, CallBytes(w, call) + rest);
    match call
    case AddInterface(linkType, snapLen, opts) =>
      match InterfaceOptions(w, opts) {
        case Err(_) =>
          r' := r;
          assert [] + rest == rest;
          assert [] + others.packets == others.packets;
        case Ok(written) =>
          InterfaceBlockReadsBack(r, w.order, linkType, snapLen, written, rest);
          InterfaceResolutionReadsBack(w, opts);
          var body := InterfaceBody(w.order, linkType, snapLen, written);
          r' := WithInterface(r, InterfaceDescription(FrameLength(body), r.nextInterface, linkType, 0, snapLen, written));
          assert [] + ReadAll(r', rest).packets == ReadAll(r', rest).packets;
      }
    case WritePacket(id, data, ts, now, options) =>
      r' := r;
      if id in w.interfaces && Supported(StampResolution(w, id)) {
        var info := w.interfaces[id];
        var stamp := if ts == ZERO_TIME then now else ts;
        var n := CapturedLength(data, info.snapLen);
        TimestampReadsBack(stamp, info.tsRes);
        var (high, low) := EncodeTimestamp(stamp, info.tsRes).value;
        PacketBodySize(w.order, id, high, low, n, |data| % TWO_32, data[..n], options);
        PacketBlockReadsBack(r, w.order, id, high, low, |data| % TWO_32, data[..n], options, rest);
        var body := PacketBody(w.order, id, high, low, n, |data| % TWO_32, data[..n], options);
        var epb := EnhancedPacket(FrameLength(body), id, high, low, n, |data| % TWO_32, data[..n], options);
        OnlyNanosecondsDiffer(high, low, info.tsRes, r.interfaces[id].tsRes);
        assert [ToPacket(r, epb)] == Meant(w, call);
      } else {
        assert [] + rest == rest;
        assert [] + others.packets == others.packets;
      }
  }

  lemma PacketBodySize(order: ByteOrder, id: Uint32, high: Uint32, low: Uint32, capturedLen: Uint32,
                       originalLen: Uint32, payload: seq<Byte>, options: seq<BlockOption>)
    ensures |PacketBody(order, id, high, low, capturedLen, originalLen, payload, options)|
         == |PacketBody(order, id, 0, 0, capturedLen, originalLen, payload, options)|
  {
    hide PutUint32, EncodeOptions;
  }

  lemma OnlyNanosecondsDiffer(high: Uint32, low: Uint32, writerRes: int, readerRes: int)
    requires Supported(writerRes) && Compatible(writerRes, readerRes)
    ensures TimestampAt(high, low, readerRes) == TimestampAt(high, low, writerRes)
  {
  }

  lemma {:induction false} RunReadsBack(w: WriterState, r: ReaderState, calls: seq<Call>, rest: seq<Byte>)
    returns (r': ReaderState)
    requires Simulates(w, r) && AllReadable(w, calls)
    ensures Simulates(FinalState(w, calls), r')
    ensures var others := ReadAll(r', rest);
            ReadAll(r, RunBytes(w, calls) + rest) == Contents(Written(w, calls) + others.packets, others.end)
    decreases |calls|
  {
    hide Simulates, Readable, CallBytes, After, Meant, ReadAll;
    if calls == [] {
      r' := r;
      assert [] + rest == rest;
      assert [] + ReadAll(r, rest).packets == ReadAll(r, rest).packets;
    } else {
      var w1 := After(w, calls[0]);
      var tail := RunBytes(w1, calls[1..]) + rest;
      var r1 := CallReadsBack(w, r, calls[0], tail);
      r' := RunReadsBack(w1, r1, calls[1..], rest);
      Associative(CallBytes(w, calls[0]), RunBytes(w1, calls[1..]), rest);
      Associative(Meant(w, calls[0]), Written(w1, calls[1..]), ReadAll(r', rest).packets);
    }
  }

  function FinalState(w: WriterState, calls: seq<Call>): WriterState
    decreases |calls|
  {
    if calls == [] then w else FinalState(After(w, calls[0]), calls[1..])
  }

  lemma SectionStarts(cfg: WriterConfig, rest: seq<Byte>) returns (r: ReaderState)
    requires Supported(cfg.defaultRes) && SectionReadable(cfg)
    ensures Simulates(Start(cfg), r)
    ensures ReadAll(INITIAL, SectionBytes(cfg) + rest) == ReadAll(r, rest)
  {
    hide ReadAll, NextStep, SectionBytes, SectionBody, Encodable;
    ReadAllStep(INITIAL, SectionBytes(cfg) + rest);
    SectionReadsBack(INITIAL, cfg, rest);
    r := NextStep(INITIAL, SectionBytes(cfg) + rest).state;
  }

  /** The round trip. Whatever the byte order and default resolution, and however AddInterface and
      WritePacket calls (failing ones included) are interleaved, reading the file gives exactly the
      written packets, in order, and then end of file. */
  lemma FileReadsBack(opts: seq<WriterOption>, calls: seq<Call>)
    requires ConfigureWriter(opts).Ok?
    requires SectionReadable(ConfigureWriter(opts).value)
    requires AllReadable(Start(ConfigureWriter(opts).value), calls)
    ensures var cfg := ConfigureWriter(opts).value;
            ReadAll(INITIAL, SectionBytes(cfg) + RunBytes(Start(cfg), calls)) == Contents(Written(Start(cfg), calls), Eof)
  {
    hide RunBytes, Written, SectionBytes, SectionBody, AllReadable, Simulates, Encodable, ReadAll;
    var cfg := ConfigureWriter(opts).value;
    var bytes := RunBytes(Start(cfg), calls);
    var r := SectionStarts(cfg, bytes);
    var r' := RunReadsBack(Start(cfg), r, calls, []);
    assert bytes + [] == bytes;
    NothingLeft(r');
    assert Written(Start(cfg), calls) + [] == Written(Start(cfg), calls);
  }

  lemma NothingLeft(r: ReaderState)
    ensures ReadAll(r, []) == Contents([], Eof)
  {
  }

  // ---- Files cut short --------------------------------------------------------------------

  /** A block that was cut is reported as the end of the file, one way or the other. */
  lemma CutBlockEndsFile(s: ReaderState, input: seq<Byte>, n: nat)
    requires NextStep(s, input).outcome.Ok?
    requires n < |input| - |NextStep(s, input).rest|
    ensures ReadAll(s, input[..n]) in {Contents([], Eof), Contents([], UnexpectedEof)}
  {
    hide ReadAll;
    ReadAllStep(s, input[..n]);
    CutStepFails(s, input, n);
  }

  lemma CutStepFails(s: ReaderState, input: seq<Byte>, n: nat)
    requires NextStep(s, input).outcome.Ok?
    requires n < |input| - |NextStep(s, input).rest|
    ensures NextStep(s, input[..n]).outcome in {Err(Eof), Err(UnexpectedEof)}
  {
    hide GetUint32, ParseSection, ParseInterface, ParsePacket, WithInterface;
    if n >= 8 {
      var header := input[..8];
      assert input[..n][..8] == header;
      var tail := input[8..];
      assert input[..n][8..] == tail[..n - 8];
      var typeOrder := if s.order.Some? then s.order.value else LittleEndian;
      if GetUint32(typeOrder, header[..4]) == SECTION_HEADER_BLOCK {
        if n >= 12 {
          assert tail[..n - 8][..4] == tail[..4];
        }
      }
    }
  }

  /** A file cut at any byte inside the block of the last call still gives every packet written by
      the calls before it, and nothing else. */
  lemma CutFileReadsBack(opts: seq<WriterOption>, calls: seq<Call>, last: Call, n: nat)
    requires ConfigureWriter(opts).Ok?
    requires SectionReadable(ConfigureWriter(opts).value)
    requires AllReadable(Start(ConfigureWriter(opts).value), calls)
    requires Readable(FinalState(Start(ConfigureWriter(opts).value), calls), last)
    requires n < |CallBytes(FinalState(Start(ConfigureWriter(opts).value), calls), last)|
    ensures var cfg := ConfigureWriter(opts).value;
            var cut := CallBytes(FinalState(Start(cfg), calls), last)[..n];
            var contents := ReadAll(INITIAL, SectionBytes(cfg) + (RunBytes(Start(cfg), calls) + cut));
            contents.packets == Written(Start(cfg), calls) && contents.end in {Eof, UnexpectedEof}
  {
    hide RunBytes, Written, SectionBytes, SectionBody, AllReadable, Simulates, Readable, CallBytes, FinalState,
      Encodable, ReadAll, NextStep;
    var cfg := ConfigureWriter(opts).value;
    var w := FinalState(Start(cfg), calls);
    var whole := CallBytes(w, last);
    var cut := whole[..n];
    var r := SectionStarts(cfg, RunBytes(Start(cfg), calls) + cut);
    var r' := RunReadsBack(Start(cfg), r, calls, cut);
    var r'' := CallReadsBack(w, r', last, []);
    assert whole + [] == whole;
    CutBlockEndsFile(r', whole, n);
    assert Written(Start(cfg), calls) + [] == Written(Start(cfg), calls);
  }

  lemma {:induction false} ExtendRun(w: WriterState, calls: seq<Call>, call: Call)
    ensures RunBytes(w, calls + [call]) == RunBytes(w, calls) + CallBytes(FinalState(w, calls), call)
    ensures FinalState(w, calls + [call]) == After(FinalState(w, calls), call)
    decreases |calls|
  {
    hide CallBytes, After;
    if calls == [] {
      assert [call][1..] == [];
      assert CallBytes(w, call) + [] == CallBytes(w, call);
      assert [] + [call] == [call];
    } else {
      var w1 := After(w, calls[0]);
      ExtendRun(w1, calls[1..], call);
      assert (calls + [call])[1..] == calls[1..] + [call];
      Associative(CallBytes(w, calls[0]), RunBytes(w1, calls[1..]), CallBytes(FinalState(w, calls), call));
    }
  }

  // ---- The two objects together -----------------------------------------------------------

  method Perform(w: Writer, calls: seq<Call>)
    modifies w`out, w`interfaces, w`nextInterface
    ensures w.out == old(w.out) + RunBytes(old(w.State()), calls)
    ensures w.State() == FinalState(old(w.State()), calls)
  {
    hide RunBytes, FinalState, InterfaceBytes, WritePacketBytes, WithNewInterface, InterfaceOptions, EffectiveResolution;
    ghost var start, out := w.State(), w.out;
    RunStart(start, out);
    for i := 0 to |calls|
      invariant w.out == out + RunBytes(start, calls[..i])
      invariant w.State() == FinalState(start, calls[..i])
    {
      ExtendRun(start, calls[..i], calls[i]);
      assert calls[..i + 1] == calls[..i] + [calls[i]];
      Associative(out, RunBytes(start, calls[..i]), CallBytes(w.State(), calls[i]));
      match calls[i]
      case AddInterface(linkType, snapLen, opts) =>
        var _ := w.AddInterface(linkType, snapLen, opts);
      case WritePacket(id, data, ts, now, options) =>
        var _ := w.WritePacket(id, data, ts, now, options);
    }
    assert calls[..|calls|] == calls;
  }

  lemma RunStart(w: WriterState, out: seq<Byte>)
    ensures out + RunBytes(w, []) == out && FinalState(w, []) == w
  {
  }

  /** Read packets until an error. */
  method ReadPackets(r: Reader) returns (packets: seq<Packet>, end: ReadError)
    modifies r
    ensures Contents(packets, end) == ReadAll(old(r.State()), old(r.input))
  {
    hide NextPacket;
    packets := [];
    while true
      invariant var others := ReadAll(r.State(), r.input);
                Contents(packets + others.packets, others.end) == ReadAll(old(r.State()), old(r.input))
      decreases |r.input|
    {
      ghost var s, input := r.State(), r.input;
      var next := r.ReadPacket();
      if next.Err? {
        assert packets + [] == packets;
        return packets, next.error;
      }
      Associative(packets, [next.value], ReadAll(r.State(), r.input).packets);
      packets := packets + [next.value];
    }
  }

  /** Write a file through the writer object, read it through the reader object. */
  method WriteThenRead(opts: seq<WriterOption>, calls: seq<Call>) returns (packets: seq<Packet>, end: ReadError)
    requires ConfigureWriter(opts).Ok?
    requires SectionReadable(ConfigureWriter(opts).value)
    requires AllReadable(Start(ConfigureWriter(opts).value), calls)
    ensures packets == Written(Start(ConfigureWriter(opts).value), calls) && end == Eof
  {
    hide SectionReadable, AllReadable, Written, RunBytes, SectionBytes, ReadAll;
    var created := Writer.NewWriter(opts);
    var writer := created.value;
    Perform(writer, calls);
    var reader := new Reader(writer.out);
    FileReadsBack(opts, calls);
    packets, end := ReadPackets(reader);
  }
}
