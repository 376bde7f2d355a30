/** The pcapng writer: one section, interfaces numbered by position, enhanced packet blocks. */
module PcapngWriter {
  import opened Wrappers
  import opened Bytes
  import opened PcapngBlocks

  datatype WriteError =
    | UnknownInterface(id: Uint32)
    | UnsupportedResolution(d: int)
    | InvalidSectionVersion

  // ---- Byte layout ------------------------------------------------------------------------

  function EncodeOption(order: ByteOrder, o: BlockOption): seq<Byte> {
    PutUint16(order, o.code) + PutUint16(order, |o.value| % TWO_16) + o.value + Zeros(PadLength(|o.value|))
  }

  function EncodeOptionList(order: ByteOrder, options: seq<BlockOption>): seq<Byte> {
    if options == [] then [] else EncodeOption(order, options[0]) + EncodeOptionList(order, options[1..])
  }

  function EncodeOptions(order: ByteOrder, options: seq<BlockOption>): seq<Byte> {
    EncodeOptionList(order, options) + PutUint16(order, OPTION_END) + PutUint16(order, 0)
  }

  /** A block: type, total length, body, total length again. The length is a uint32, so it wraps. */
  function Frame(order: ByteOrder, blockType: Uint32, body: seq<Byte>): seq<Byte> {
    PutUint32(order, blockType) + PutUint32(order, FrameLength(body)) + body + PutUint32(order, FrameLength(body))
  }

  function FrameLength(body: seq<Byte>): Uint32 {
    (8 + |body| + 4) % TWO_32
  }

  function Magic(order: ByteOrder): Uint32 {
    if order.BigEndian? then BYTE_ORDER_MAGIC_BIG else BYTE_ORDER_MAGIC_LITTLE
  }

  function SectionLengthField(sectionLength: Int64): Uint64 {
    if sectionLength >= 0 then sectionLength else 0xFFFF_FFFF_FFFF_FFFF
  }

  function SectionBody(order: ByteOrder, major: Uint16, minor: Uint16, sectionLength: Int64,
                       options: seq<BlockOption>): seq<Byte> {
    PutUint32(BigEndian, Magic(order)) + PutUint16(order, major) + PutUint16(order, minor)
    + PutUint64(order, SectionLengthField(sectionLength)) + EncodeOptions(order, options)
  }

  function InterfaceBody(order: ByteOrder, linkType: Uint16, snapLen: Uint32, options: seq<BlockOption>): seq<Byte> {
    PutUint16(order, linkType) + PutUint16(order, 0) + PutUint32(order, snapLen) + EncodeOptions(order, options)
  }

  function PacketBody(order: ByteOrder, id: Uint32, high: Uint32, low: Uint32, capturedLen: Uint32,
                      originalLen: Uint32, payload: seq<Byte>, options: seq<BlockOption>): seq<Byte> {
    PutUint32(order, id) + PutUint32(order, high) + PutUint32(order, low) + PutUint32(order, capturedLen)
    + PutUint32(order, originalLen) + (payload + Zeros(PadLength(capturedLen)) + EncodeOptions(order, options))
  }

  // ---- Timestamps -------------------------------------------------------------------------

  function EncodeTimestampResolution(d: int): Result<Byte, WriteError> {
    if d == NANOSECOND then Ok(9)
    else if d == MICROSECOND then Ok(6)
    else Err(UnsupportedResolution(d))
  }

  /** The 64-bit tick count; uint64 arithmetic wraps. */
  function Ticks(ts: Time, resolution: int): Uint64 {
    if resolution == NANOSECOND then
      (ts.unix * 1_000_000_000 + ts.nanos) % TWO_64
    else
      (ts.unix * 1_000_000 + ts.nanos / 1_000) % TWO_64
  }

  function EncodeTimestamp(ts: Time, resolution: int): Result<(Uint32, Uint32), WriteError> {
    if resolution == NANOSECOND || resolution == MICROSECOND then
      Ok((Ticks(ts, resolution) / TWO_32, Ticks(ts, resolution) % TWO_32))
    else
      Err(UnsupportedResolution(resolution))
  }

  // ---- Writer configuration ---------------------------------------------------------------

  datatype WriterOption =
    | WithByteOrder(order: ByteOrder)
    | WithSectionVersion(major: Uint16, minor: Uint16)
    | WithSectionLength(length: Int64)
    | WithSectionOption(option: BlockOption)
    | WithDefaultTimestampResolution(res: int)

  datatype WriterConfig = WriterConfig(order: ByteOrder, major: Uint16, minor: Uint16, sectionLength: Int64,
                                       sectionOpts: seq<BlockOption>, defaultRes: int)

  const DEFAULT_CONFIG := WriterConfig(LittleEndian, 1, 0, -1, [], MICROSECOND)

  function ApplyWriterOption(cfg: WriterConfig, opt: WriterOption): Result<WriterConfig, WriteError> {
    match opt
    case WithByteOrder(order) => Ok(cfg.(order := order))
    case WithSectionVersion(major, minor) =>
      if major == 0 then Err(InvalidSectionVersion) else Ok(cfg.(major := major, minor := minor))
    case WithSectionLength(length) => Ok(cfg.(sectionLength := length))
    case WithSectionOption(option) => Ok(cfg.(sectionOpts := cfg.sectionOpts + [option]))
    case WithDefaultTimestampResolution(res) =>
      if res == MICROSECOND || res == NANOSECOND then Ok(cfg.(defaultRes := res)) else Err(UnsupportedResolution(res))
  }

  /** The configuration after all options, or the first error. The default resolution is always
      one that a timestamp can be encoded in. */
  function ConfigureWriter(opts: seq<WriterOption>): (r: Result<WriterConfig, WriteError>)
    ensures r.Ok? ==> r.value.defaultRes == MICROSECOND || r.value.defaultRes == NANOSECOND
  {
    if opts == [] then Ok(DEFAULT_CONFIG)
    else
      var before := ConfigureWriter(opts[..|opts| - 1]);
      if before.Err? then before else ApplyWriterOption(before.value, opts[|opts| - 1])
  }

  function SectionBytes(cfg: WriterConfig): seq<Byte> {
    Frame(cfg.order, SECTION_HEADER_BLOCK,
          SectionBody(cfg.order, cfg.major, cfg.minor, cfg.sectionLength, cfg.sectionOpts))
  }

  datatype InterfaceOption =
    | WithInterfaceOption(code: Uint16, value: seq<Byte>)
    | WithInterfaceTimestampResolution(res: int)

  datatype InterfaceConfig = InterfaceConfig(options: seq<BlockOption>, tsResolution: int, hasTsOption: bool)

  function ApplyInterfaceOption(cfg: InterfaceConfig, opt: InterfaceOption): InterfaceConfig {
    match opt
    case WithInterfaceOption(code, value) =>
      InterfaceConfig(cfg.options + [BlockOption(code, value)],
                      if code == OPTION_IF_TSRESOL && |value| > 0 then ResolutionOf(value[0]) else cfg.tsResolution,
                      cfg.hasTsOption || code == OPTION_IF_TSRESOL)
    case WithInterfaceTimestampResolution(res) => cfg.(tsResolution := res)
  }

  function ConfigureInterface(opts: seq<InterfaceOption>): InterfaceConfig {
    if opts == [] then InterfaceConfig([], 0, false)
    else ApplyInterfaceOption(ConfigureInterface(opts[..|opts| - 1]), opts[|opts| - 1])
  }

  // ---- Writer state and its operations ----------------------------------------------------

  datatype WriterInterface = WriterInterface(linkType: Uint16, snapLen: Uint32, tsRes: int)

  datatype WriterState = WriterState(order: ByteOrder, defaultRes: int,
                                     interfaces: map<Uint32, WriterInterface>, nextInterface: Uint32)

  /** The resolution in which an interface's packets will be stamped. */
  function EffectiveResolution(s: WriterState, opts: seq<InterfaceOption>): int {
    var cfg := ConfigureInterface(opts);
    if cfg.tsResolution == 0 then s.defaultRes else cfg.tsResolution
  }

  /** The options of the interface block: the caller's, then an if_tsresol when one is due. */
  function InterfaceOptions(s: WriterState, opts: seq<InterfaceOption>): Result<seq<BlockOption>, WriteError> {
    var cfg := ConfigureInterface(opts);
    var tsRes := EffectiveResolution(s, opts);
    if !cfg.hasTsOption && (cfg.tsResolution != 0 || tsRes != MICROSECOND) then
      match EncodeTimestampResolution(tsRes)
      case Err(e) => Err(e)
      case Ok(value) => Ok(cfg.options + [BlockOption(OPTION_IF_TSRESOL, [value])])
    else
      Ok(cfg.options)
  }

  function InterfaceBytes(s: WriterState, linkType: Uint16, snapLen: Uint32, options: seq<BlockOption>): seq<Byte> {
    Frame(s.order, INTERFACE_DESCRIPTION_BLOCK, InterfaceBody(s.order, linkType, snapLen, options))
  }

  function WithNewInterface(s: WriterState, info: WriterInterface): WriterState {
    s.(interfaces := s.interfaces[s.nextInterface := info], nextInterface := (s.nextInterface + 1) % TWO_32)
  }

  /** The length of the data that a packet block keeps: len(data) as a uint32, cut at snapLen. Data is
      kept whole exactly when it is within the snap length, where there is one, and otherwise cut there. */
  function CapturedLength(data: seq<Byte>, snapLen: Uint32): (n: Uint32)
    ensures n <= |data|
    ensures snapLen > 0 ==> n <= snapLen
    ensures n == |data| <==> |data| < TWO_32 && (snapLen == 0 || |data| <= snapLen)
    ensures |data| < TWO_32 && n < |data| ==> n == snapLen
  {
    var origLen: Uint32 := |data| % TWO_32;
    if snapLen > 0 && origLen > snapLen then snapLen else origLen
  }

  function PacketBytes(s: WriterState, id: Uint32, ticks: (Uint32, Uint32), data: seq<Byte>, snapLen: Uint32,
                       options: seq<BlockOption>): seq<Byte> {
    var n := CapturedLength(data, snapLen);
    Frame(s.order, ENHANCED_PACKET_BLOCK,
          PacketBody(s.order, id, ticks.0, ticks.1, n, |data| % TWO_32, data[..n], options))
  }

  /** A packet that WritePacket accepts, with the bytes it appends, or its error. */
  function WritePacketBytes(s: WriterState, id: Uint32, data: seq<Byte>, ts: Time, now: Time,
                            options: seq<BlockOption>): (r: Result<seq<Byte>, WriteError>)
    ensures r.Ok? ==> id in s.interfaces
  {
    if id !in s.interfaces then Err(UnknownInterface(id))
    else
      var info := s.interfaces[id];
      var stamp := if ts == ZERO_TIME then now else ts;
      var tsRes := if info.tsRes == 0 then s.defaultRes else info.tsRes;
      match EncodeTimestamp(stamp, tsRes)
      case Err(e) => Err(e)
      case Ok(ticks) => Ok(PacketBytes(s, id, ticks, data, info.snapLen, options))
  }

  lemma PacketPieces(kind: seq<Byte>, length: seq<Byte>, a: seq<Byte>, b: seq<Byte>, c: seq<Byte>, d: seq<Byte>,
                     e: seq<Byte>, payload: seq<Byte>, pad: seq<Byte>, options: seq<Byte>)
    ensures kind + length + a + b + c + d + e + payload + pad + options + length
            == kind + length + (a + b + c + d + e + (payload + pad + options)) + length
  {
  }

  // ---- The writer object ------------------------------------------------------------------

  lemma EncodeOptionListEnd(order: ByteOrder)
    ensures EncodeOptionList(order, []) == []
  {
  }

  lemma EncodeOptionListStep(order: ByteOrder, options: seq<BlockOption>, i: nat)
    requires i < |options|
    ensures EncodeOptionList(order, options[i..])
         == EncodeOption(order, options[i]) + EncodeOptionList(order, options[i + 1..])
  {
    assert options[i..][1..] == options[i + 1..];
  }

  method EncodeOptionsInto(options: seq<BlockOption>, order: ByteOrder) returns (buf: seq<Byte>)
    ensures buf == EncodeOptions(order, options)
  {
    hide PutUint16, Zeros, EncodeOptionList;
    EncodeOptionListEnd(order);
    buf := [];
    for i := 0 to |options|
      invariant buf + EncodeOptionList(order, options[i..]) == EncodeOptionList(order, options)
    {
      var opt := options[i];
      ghost var before := buf;
      buf := buf + PutUint16(order, opt.code);
      buf := buf + PutUint16(order, |opt.value| % TWO_16);
      buf := buf + opt.value;
      var pad := (4 - |opt.value| % 4) % 4;
      if pad > 0 {
        buf := buf + Zeros(pad);
      }
      assert buf == before + EncodeOption(order, opt);
      EncodeOptionListStep(order, options, i);
      Associative(before, EncodeOption(order, opt), EncodeOptionList(order, options[i + 1..]));
    }
    assert options[|options|..] == [];
    buf := buf + PutUint16(order, 0);
    buf := buf + PutUint16(order, 0);
  }

  class Writer {
    var out: seq<Byte>
    var order: ByteOrder
    var sectionLength: Int64
    var sectionOpts: seq<BlockOption>
    var defaultRes: int
    var interfaces: map<Uint32, WriterInterface>
    var nextInterface: Uint32
    var major: Uint16
    var minor: Uint16

    ghost function State(): WriterState
      reads this
    {
      WriterState(order, defaultRes, interfaces, nextInterface)
    }

    constructor (cfg: WriterConfig)
      ensures out == [] && State() == WriterState(cfg.order, cfg.defaultRes, map[], 0)
      ensures sectionLength == cfg.sectionLength && sectionOpts == cfg.sectionOpts
      ensures major == cfg.major && minor == cfg.minor
    {
      out := [];
      order := cfg.order;
      sectionLength := cfg.sectionLength;
      sectionOpts := cfg.sectionOpts;
      defaultRes := cfg.defaultRes;
      interfaces := map[];
      nextInterface := 0;
      major := cfg.major;
      minor := cfg.minor;
    }

    static method NewWriter(opts: seq<WriterOption>) returns (r: Result<Writer, WriteError>)
      ensures r.Err? <==> ConfigureWriter(opts).Err?
      ensures r.Err? ==> r.error == ConfigureWriter(opts).error
      ensures r.Ok? ==> fresh(r.value)
      ensures r.Ok? ==> var cfg := ConfigureWriter(opts).value;
                        && r.value.out == SectionBytes(cfg)
                        && r.value.State() == WriterState(cfg.order, cfg.defaultRes, map[], 0)
    {
      var cfg := DEFAULT_CONFIG;
      for i := 0 to |opts|
        invariant ConfigureWriter(opts[..i]) == Ok(cfg)
      {
        assert opts[..i + 1][..i] == opts[..i];
        var applied := ApplyWriterOption(cfg, opts[i]);
        if applied.Err? {
          FirstErrorWins(opts, i + 1);
          return Err(applied.error);
        }
        cfg := applied.value;
      }
      assert opts[..|opts|] == opts;
      var w := new Writer(cfg);
      w.WriteSectionHeader();
      return Ok(w);
    }

    method WriteSectionHeader()
      modifies this`out
      ensures out == old(out) + Frame(order, SECTION_HEADER_BLOCK,
                                      SectionBody(order, major, minor, sectionLength, sectionOpts))
    {
      hide PutUint16, PutUint32, PutUint64, Zeros, EncodeOptions;
      var options := EncodeOptionsInto(sectionOpts, order);
      var payloadLen := 4 + 2 + 2 + 8 + |options|;
      var totalLength := (8 + payloadLen + 4) % TWO_32;
      var buf := PutUint32(order, SECTION_HEADER_BLOCK);
      buf := buf + PutUint32(order, totalLength);
      var magic := if order == BigEndian then BYTE_ORDER_MAGIC_BIG else BYTE_ORDER_MAGIC_LITTLE;
      buf := buf + PutUint32(BigEndian, magic);
      buf := buf + PutUint16(order, major);
      buf := buf + PutUint16(order, minor);
      var length: Uint64 := 0xFFFF_FFFF_FFFF_FFFF;
      if sectionLength >= 0 {
        length := sectionLength;
      }
      buf := buf + PutUint64(order, length);
      buf := buf + options;
      buf := buf + PutUint32(order, totalLength);
      ghost var body := SectionBody(order, major, minor, sectionLength, sectionOpts);
      assert totalLength == FrameLength(body);
      assert buf == Frame(order, SECTION_HEADER_BLOCK, body);
      out := out + buf;
    }

    method AddInterface(linkType: Uint16, snapLen: Uint32, opts: seq<InterfaceOption>)
      returns (r: Result<Uint32, WriteError>)
      modifies this`out, this`interfaces, this`nextInterface
      ensures var before, options := old(State()), InterfaceOptions(old(State()), opts);
              match options
              case Err(e) => r == Err(e) && State() == before && out == old(out)
              case Ok(written) =>
                && r == Ok(before.nextInterface)
                && State() == WithNewInterface(before, WriterInterface(linkType, snapLen,
                                                                      EffectiveResolution(before, opts)))
                && out == old(out) + InterfaceBytes(before, linkType, snapLen, written)
    {
      hide InterfaceBytes, EncodeTimestampResolution;
      ghost var before, due := State(), InterfaceOptions(State(), opts);
      var cfg := InterfaceConfig([], 0, false);
      for i := 0 to |opts|
        invariant cfg == ConfigureInterface(opts[..i])
      {
        assert opts[..i + 1][..i] == opts[..i];
        cfg := ApplyInterfaceOption(cfg, opts[i]);
      }
      assert opts[..|opts|] == opts;

      var tsRes := cfg.tsResolution;
      if tsRes == 0 {
        tsRes := defaultRes;
      }
      var options := cfg.options;
      var addTsOption := false;
      if cfg.hasTsOption {
        addTsOption := false;
      } else if cfg.tsResolution != 0 {
        addTsOption := true;
      } else if tsRes != MICROSECOND {
        addTsOption := true;
      }
      if addTsOption {
        var value := EncodeTimestampResolution(tsRes);
        if value.Err? {
          return Err(value.error);
        }
        options := options + [BlockOption(9, [value.value])];
      }
      assert tsRes == EffectiveResolution(before, opts) && due == Ok(options);
      WriteInterfaceBlock(linkType, snapLen, options);
      var id := nextInterface;
      nextInterface := (nextInterface + 1) % TWO_32;
      interfaces := interfaces[id := WriterInterface(linkType, snapLen, tsRes)];
      return Ok(id);
    }

    method WriteInterfaceBlock(linkType: Uint16, snapLen: Uint32, blockOptions: seq<BlockOption>)
      modifies this`out
      ensures out == old(out) + InterfaceBytes(State(), linkType, snapLen, blockOptions)
    {
      hide PutUint16, PutUint32, PutUint64, Zeros, EncodeOptions;
      var options := EncodeOptionsInto(blockOptions, order);
      var payloadLen := 2 + 2 + 4 + |options|;
      var totalLength := (8 + payloadLen + 4) % TWO_32;
      var buf := PutUint32(order, INTERFACE_DESCRIPTION_BLOCK);
      buf := buf + PutUint32(order, totalLength);
      buf := buf + PutUint16(order, linkType);
      buf := buf + PutUint16(order, 0);
      buf := buf + PutUint32(order, snapLen);
      buf := buf + options;
      buf := buf + PutUint32(order, totalLength);
      ghost var body := InterfaceBody(order, linkType, snapLen, blockOptions);
      assert totalLength == FrameLength(body);
      assert buf == Frame(order, INTERFACE_DESCRIPTION_BLOCK, body);
      out := out + buf;
    }

    /** `now` is the clock, read only for the zero time. */
    method WritePacket(id: Uint32, data: seq<Byte>, ts: Time, now: Time, opts: seq<BlockOption>)
      returns (r: Result<(), WriteError>)
      modifies this`out
      ensures match WritePacketBytes(State(), id, data, ts, now, opts)
              case Err(e) => r == Err(e) && out == old(out)
              case Ok(bytes) => r == Ok(()) && out == old(out) + bytes
    {
      if id !in interfaces {
        return Err(UnknownInterface(id));
      }
      var info := interfaces[id];
      var stamp := ts;
      if ts == ZERO_TIME {
        stamp := now;
      }
      var tsRes := info.tsRes;
      if tsRes == 0 {
        tsRes := defaultRes;
      }
      var ticks := EncodeTimestamp(stamp, tsRes);
      if ticks.Err? {
        return Err(ticks.error);
      }
      var origLen: Uint32 := |data| % TWO_32;
      var capturedLen := origLen;
      if info.snapLen > 0 && capturedLen > info.snapLen {
        capturedLen := info.snapLen;
      }
      WriteEnhancedPacket(id, ticks.value.0, ticks.value.1, capturedLen, origLen, data[..capturedLen], opts);
      return Ok(());
    }

    method WriteEnhancedPacket(id: Uint32, high: Uint32, low: Uint32, capturedLen: Uint32, originalLen: Uint32,
                               payload: seq<Byte>, opts: seq<BlockOption>)
      requires |payload| == capturedLen
      modifies this`out
      ensures out == old(out) + Frame(order, ENHANCED_PACKET_BLOCK,
                                      PacketBody(order, id, high, low, capturedLen, originalLen, payload, opts))
    {
      hide PutUint16, PutUint32, PutUint64, Zeros, EncodeOptions;
      var padding := (4 - capturedLen % 4) % 4;
      var options := EncodeOptionsInto(opts, order);
      var payloadLen := 4 + 4 + 4 + 4 + 4 + capturedLen + padding + |options|;
      var totalLength := (8 + payloadLen + 4) % TWO_32;
      var buf := PutUint32(order, ENHANCED_PACKET_BLOCK);
      buf := buf + PutUint32(order, totalLength);
      buf := buf + PutUint32(order, id);
      buf := buf + PutUint32(order, high);
      buf := buf + PutUint32(order, low);
      buf := buf + PutUint32(order, capturedLen);
      buf := buf + PutUint32(order, originalLen);
      buf := buf + payload;
      ghost var pad := Zeros(PadLength(capturedLen));
      ghost var start := buf;
      if padding > 0 {
        buf := buf + Zeros(padding);
      }
      assert buf == start + pad;
      buf := buf + options;
      buf := buf + PutUint32(order, totalLength);
      PacketPieces(PutUint32(order, ENHANCED_PACKET_BLOCK), PutUint32(order, totalLength), PutUint32(order, id),
                   PutUint32(order, high), PutUint32(order, low), PutUint32(order, capturedLen),
                   PutUint32(order, originalLen), payload, pad, options);
      assert totalLength == FrameLength(PacketBody(order, id, high, low, capturedLen, originalLen, payload, opts));
      out := out + buf;
    }
  }

  lemma {:induction false} FirstErrorWins(opts: seq<WriterOption>, i: nat)
    requires i <= |opts| && ConfigureWriter(opts[..i]).Err?
    ensures ConfigureWriter(opts) == ConfigureWriter(opts[..i])
    decreases |opts| - i
  {
    if i < |opts| {
      assert opts[..i + 1][..i] == opts[..i];
      FirstErrorWins(opts, i + 1);
    } else {
      assert opts[..i] == opts;
    }
  }
}
