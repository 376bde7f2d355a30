/** The pcapng byte layout in plain numbers, from draft-ietf-opsawg-pcapng, sections 3.1, 3.5 and 4.1 to 4.3
    (but for the byte-order magic, which the code maps the other way round): what a writer puts at which
    offset, and which inputs a reader takes for which block. */
module PcapngLayout {
  import opened Wrappers
  import opened Bytes
  import opened PcapngBlocks
  import opened PcapngWriter
  import opened PcapngReader
  import opened PcapngRoundTrip

  // ---- Numbers in bytes -------------------------------------------------------------------

  /** The number that the two bytes at an offset spell. */
  function Spelled16(order: ByteOrder, b: seq<Byte>, at: nat): int
    requires at + 2 <= |b|
  {
    var p: int, q: int := b[at], b[at + 1];
    if order.LittleEndian? then p + 256 * q else 256 * p + q
  }

  function Spelled32(order: ByteOrder, b: seq<Byte>, at: nat): int
    requires at + 4 <= |b|
  {
    var p: int, q: int, r: int, s: int := b[at], b[at + 1], b[at + 2], b[at + 3];
    if order.LittleEndian? then p + 256 * q + 65536 * r + 16777216 * s
    else 16777216 * p + 65536 * q + 256 * r + s
  }

  function Spelled64(order: ByteOrder, b: seq<Byte>, at: nat): int
    requires at + 8 <= |b|
  {
    if order.LittleEndian? then Spelled32(order, b, at) + 4294967296 * Spelled32(order, b, at + 4)
    else 4294967296 * Spelled32(order, b, at) + Spelled32(order, b, at + 4)
  }

  lemma Gets16(order: ByteOrder, b: seq<Byte>, at: nat)
    requires at + 2 <= |b|
    ensures GetUint16(order, b[at..at + 2]) == Spelled16(order, b, at)
  {
  }

  lemma Gets32(order: ByteOrder, b: seq<Byte>, at: nat)
    requires at + 4 <= |b|
    ensures GetUint32(order, b[at..at + 4]) == Spelled32(order, b, at)
  {
    var w := b[at..at + 4];
    assert w[..2] == b[at..at + 2] && w[2..4] == b[at + 2..at + 4];
  }

  lemma Gets64(order: ByteOrder, b: seq<Byte>, at: nat)
    requires at + 8 <= |b|
    ensures GetUint64(order, b[at..at + 8]) == Spelled64(order, b, at)
  {
    hide GetUint32, Spelled32;
    var w := b[at..at + 8];
    assert w[..4] == b[at..at + 4] && w[4..8] == b[at + 4..at + 8];
    Gets32(order, b, at);
    Gets32(order, b, at + 4);
  }

  lemma Puts16(order: ByteOrder, b: seq<Byte>, at: nat, v: Uint16)
    requires at + 2 <= |b| && b[at..at + 2] == PutUint16(order, v)
    ensures Spelled16(order, b, at) == v
  {
    Gets16(order, b, at);
  }

  lemma Puts32(order: ByteOrder, b: seq<Byte>, at: nat, v: Uint32)
    requires at + 4 <= |b| && b[at..at + 4] == PutUint32(order, v)
    ensures Spelled32(order, b, at) == v
  {
    hide PutUint32, GetUint32, Spelled32;
    Gets32(order, b, at);
  }

  lemma Puts64(order: ByteOrder, b: seq<Byte>, at: nat, v: Uint64)
    requires at + 8 <= |b| && b[at..at + 8] == PutUint64(order, v)
    ensures Spelled64(order, b, at) == v
  {
    hide PutUint64, GetUint64, Spelled64;
    Gets64(order, b, at);
  }

  /** Where a field of n bytes ends, with the padding to a multiple of four. */
  function Padded(n: nat): nat {
    n + (4 - n % 4) % 4
  }

  // ---- What a writer writes ---------------------------------------------------------------

  /** Options one after the other, each its code, its length, its value and zeros, and then the end mark. */
  ghost predicate OptionsLaidOut(order: ByteOrder, b: seq<Byte>, options: seq<BlockOption>)
    decreases |options|
  {
    if options == [] then b == [0, 0, 0, 0]
    else
      var value := options[0].value;
      var next := 4 + Padded(|value|);
      && next <= |b|
      && Spelled16(order, b, 0) == options[0].code
      && Spelled16(order, b, 2) == |value| % 65536
      && b[4..4 + |value|] == value
      && (forall k :: 4 + |value| <= k < next ==> b[k] == 0)
      && OptionsLaidOut(order, b[next..], options[1..])
  }

  /** What all blocks have in common. */
  ghost predicate Framed(order: ByteOrder, b: seq<Byte>, blockType: int) {
    && |b| >= 12
    && Spelled32(order, b, 0) == blockType
    && Spelled32(order, b, 4) == |b| % 4294967296
    && Spelled32(order, b, |b| - 4) == |b| % 4294967296
  }

  lemma {:induction false} OptionsAreLaidOut(order: ByteOrder, options: seq<BlockOption>)
    ensures OptionsLaidOut(order, EncodeOptions(order, options), options)
  {
    hide EncodeOption, Spelled16;
    var b := EncodeOptions(order, options);
    if options == [] {
      assert PutUint16(order, 0) == [0, 0];
      assert EncodeOptionList(order, options) == [];
      assert b == [0, 0, 0, 0];
    } else {
      var first, others := EncodeOption(order, options[0]), EncodeOptions(order, options[1..]);
      assert b == first + others;
      OptionIsLaidOut(order, options[0], others);
      OptionsAreLaidOut(order, options[1..]);
      assert b[|first|..] == others;
    }
  }

  lemma OptionIsLaidOut(order: ByteOrder, o: BlockOption, others: seq<Byte>)
    ensures var b, first := EncodeOption(order, o) + others, EncodeOption(order, o);
            && |first| == 4 + Padded(|o.value|) <= |b|
            && Spelled16(order, b, 0) == o.code && Spelled16(order, b, 2) == |o.value| % 65536
            && b[4..4 + |o.value|] == o.value
            && (forall k :: 4 + |o.value| <= k < |first| ==> b[k] == 0)
  {
    hide PutUint16, Spelled16;
    var b := EncodeOption(order, o) + others;
    Puts16(order, b, 0, o.code);
    Puts16(order, b, 2, |o.value| % TWO_16);
  }

  lemma FrameIsLaidOut(order: ByteOrder, blockType: Uint32, body: seq<Byte>)
    ensures var b := Frame(order, blockType, body);
            && Framed(order, b, blockType)
            && |b| == 12 + |body| && b[8..|b| - 4] == body
  {
    hide PutUint32, Spelled32;
    var b := Frame(order, blockType, body);
    Puts32(order, b, 0, blockType);
    Puts32(order, b, 4, FrameLength(body));
    Puts32(order, b, |b| - 4, FrameLength(body));
  }

  /** The section header that a writer starts its output with. */
  lemma SectionIsLaidOut(cfg: WriterConfig)
    ensures var b := SectionBytes(cfg);
            && Framed(cfg.order, b, 0x0A0D0D0A) && |b| >= 28
            && b[8..12] == (if cfg.order.LittleEndian? then [0x1A, 0x2B, 0x3C, 0x4D] else [0x4D, 0x3C, 0x2B, 0x1A])
            && Spelled16(cfg.order, b, 12) == cfg.major && Spelled16(cfg.order, b, 14) == cfg.minor
            && Spelled64(cfg.order, b, 16)
               == (if cfg.sectionLength >= 0 then cfg.sectionLength else 18446744073709551615)
            && OptionsLaidOut(cfg.order, b[24..|b| - 4], cfg.sectionOpts)
  {
    hide Frame, PutUint16, PutUint32, PutUint64, SectionBody, EncodeOptions, Spelled16, Spelled32, Spelled64, Framed;
    var body := SectionBody(cfg.order, cfg.major, cfg.minor, cfg.sectionLength, cfg.sectionOpts);
    var b := SectionBytes(cfg);
    FrameIsLaidOut(cfg.order, SECTION_HEADER_BLOCK, body);
    SectionBodyParts(cfg.order, cfg.major, cfg.minor, cfg.sectionLength, cfg.sectionOpts);
    OptionsAreLaidOut(cfg.order, cfg.sectionOpts);
    MagicIsLaidOut(cfg.order);
    InBody(b, body, 0, 4);
    InBody(b, body, 4, 6);
    InBody(b, body, 6, 8);
    InBody(b, body, 8, 16);
    InBody(b, body, 16, |body|);
    Puts16(cfg.order, b, 12, cfg.major);
    Puts16(cfg.order, b, 14, cfg.minor);
    Puts64(cfg.order, b, 16, SectionLengthField(cfg.sectionLength));
    SectionBodyHolds(cfg.order, cfg.major, cfg.minor, cfg.sectionLength, cfg.sectionOpts);
  }

  lemma MagicIsLaidOut(order: ByteOrder)
    ensures PutUint32(BigEndian, Magic(order))
            == if order.LittleEndian? then [0x1A, 0x2B, 0x3C, 0x4D] else [0x4D, 0x3C, 0x2B, 0x1A]
  {
  }

  /** Bytes of a body stand eight further in its block. */
  lemma InBody(b: seq<Byte>, body: seq<Byte>, low: nat, high: nat)
    requires low <= high <= |body| && |b| == 12 + |body| && b[8..|b| - 4] == body
    ensures b[8 + low..8 + high] == body[low..high]
  {
    SliceOfSlice(b, 8, |b| - 4, low, high);
  }

  lemma SliceOfSlice<T>(s: seq<T>, m: nat, n: nat, low: nat, high: nat)
    requires m <= n <= |s| && low <= high <= n - m
    ensures s[m..n][low..high] == s[m + low..m + high]
  {
    forall k | 0 <= k < high - low
      ensures s[m..n][low..high][k] == s[m + low..m + high][k]
    {
      assert s[m..n][low + k] == s[m + low + k];
    }
  }

  /** The block of an interface, with the options that it is given. */
  lemma InterfaceIsLaidOut(w: WriterState, linkType: Uint16, snapLen: Uint32, options: seq<BlockOption>)
    ensures var b := InterfaceBytes(w, linkType, snapLen, options);
            && Framed(w.order, b, 1) && |b| >= 20
            && Spelled16(w.order, b, 8) == linkType && Spelled16(w.order, b, 10) == 0
            && Spelled32(w.order, b, 12) == snapLen
            && OptionsLaidOut(w.order, b[16..|b| - 4], options)
  {
    hide Frame, PutUint16, PutUint32, InterfaceBody, EncodeOptions, Spelled16, Spelled32, Framed;
    var body := InterfaceBody(w.order, linkType, snapLen, options);
    var b := InterfaceBytes(w, linkType, snapLen, options);
    FrameIsLaidOut(w.order, INTERFACE_DESCRIPTION_BLOCK, body);
    InterfaceBodyParts(w.order, linkType, snapLen, options);
    InterfaceBodySize(w.order, linkType, snapLen, options);
    OptionsAreLaidOut(w.order, options);
    InBody(b, body, 0, 2);
    InBody(b, body, 2, 4);
    InBody(b, body, 4, 8);
    InBody(b, body, 8, |body|);
    Puts16(w.order, b, 8, linkType);
    Puts16(w.order, b, 10, 0);
    Puts32(w.order, b, 12, snapLen);
  }

  /** The resolution in which a packet of an interface is stamped, in nanoseconds. */
  function StampedIn(w: WriterState, id: Uint32): int
    requires id in w.interfaces
  {
    if w.interfaces[id].tsRes == 0 then w.defaultRes else w.interfaces[id].tsRes
  }

  /** The tick count of an instant since 1970, in nanoseconds or else in microseconds. */
  function CountOf(ts: Time, resolution: int): int {
    if resolution == 1 then ts.unix * 1000000000 + ts.nanos else ts.unix * 1000000 + ts.nanos / 1000
  }

  /** The block of a packet: type 6, the interface, the halves of the 64-bit tick count, both lengths, the data
      cut at the snap length and padded with zeros, the options. There is one exactly when the interface is
      known and stamps in nanoseconds or microseconds. */
  lemma PacketIsLaidOut(w: WriterState, id: Uint32, data: seq<Byte>, ts: Time, now: Time, options: seq<BlockOption>)
    ensures var r := WritePacketBytes(w, id, data, ts, now, options);
            && (r.Ok? <==> id in w.interfaces && StampedIn(w, id) in {1, 1000})
            && (r.Err? ==> r.error == if id !in w.interfaces then UnknownInterface(id)
                                      else UnsupportedResolution(StampedIn(w, id)))
            && (r.Ok? ==>
                  var b, snapLen, length := r.value, w.interfaces[id].snapLen, |data| % 4294967296;
                  var n := if 0 < snapLen < length then snapLen else length;
                  && Framed(w.order, b, 6) && |b| >= 32 + Padded(n)
                  && Spelled32(w.order, b, 8) == id
                  && 4294967296 * Spelled32(w.order, b, 12) + Spelled32(w.order, b, 16)
                     == CountOf(if ts == Time(-62135596800, 0) then now else ts, StampedIn(w, id)) % 18446744073709551616
                  && Spelled32(w.order, b, 20) == n && Spelled32(w.order, b, 24) == length
                  && b[28..28 + n] == data[..n]
                  && (forall k :: 28 + n <= k < 28 + Padded(n) ==> b[k] == 0)
                  && OptionsLaidOut(w.order, b[28 + Padded(n)..|b| - 4], options))
  {
    hide PacketBytes, Spelled32, Framed, OptionsLaidOut;
    if id in w.interfaces && (StampedIn(w, id) == 1 || StampedIn(w, id) == 1000) {
      var stamp := if ts == ZERO_TIME then now else ts;
      var ticks := EncodeTimestamp(stamp, StampedIn(w, id)).value;
      PacketFields(w, id, ticks, data, w.interfaces[id].snapLen, options);
    }
  }

  lemma PacketFields(w: WriterState, id: Uint32, ticks: (Uint32, Uint32), data: seq<Byte>, snapLen: Uint32,
                     options: seq<BlockOption>)
    ensures var b, n := PacketBytes(w, id, ticks, data, snapLen, options), CapturedLength(data, snapLen);
            && Framed(w.order, b, 6) && |b| >= 32 + Padded(n)
            && Spelled32(w.order, b, 8) == id
            && Spelled32(w.order, b, 12) == ticks.0 && Spelled32(w.order, b, 16) == ticks.1
            && Spelled32(w.order, b, 20) == n && Spelled32(w.order, b, 24) == |data| % 4294967296
            && b[28..28 + n] == data[..n]
            && (forall k :: 28 + n <= k < 28 + Padded(n) ==> b[k] == 0)
            && OptionsLaidOut(w.order, b[28 + Padded(n)..|b| - 4], options)
  {
    hide Frame, PutUint32, PacketBody, EncodeOptions, Spelled32, Framed, CapturedLength, OptionsLaidOut;
    var n := CapturedLength(data, snapLen);
    var body := PacketBody(w.order, id, ticks.0, ticks.1, n, |data| % TWO_32, data[..n], options);
    var b := PacketBytes(w, id, ticks, data, snapLen, options);
    FrameIsLaidOut(w.order, ENHANCED_PACKET_BLOCK, body);
    PacketBodyParts(w.order, id, ticks.0, ticks.1, n, |data| % TWO_32, data[..n], options);
    PacketBodyHolds(w.order, id, ticks.0, ticks.1, |data| % TWO_32, data[..n], options);
    OptionsAreLaidOut(w.order, options);
    InBody(b, body, 0, 4);
    InBody(b, body, 4, 8);
    InBody(b, body, 8, 12);
    InBody(b, body, 12, 16);
    InBody(b, body, 16, 20);
    InBody(b, body, 20, |body|);
    Puts32(w.order, b, 8, id);
    Puts32(w.order, b, 12, ticks.0);
    Puts32(w.order, b, 16, ticks.1);
    Puts32(w.order, b, 20, n);
    Puts32(w.order, b, 24, |data| % TWO_32);
    PayloadIsLaidOut(b, body, n, data[..n], EncodeOptions(w.order, options));
  }

  lemma PayloadIsLaidOut(b: seq<Byte>, body: seq<Byte>, n: nat, payload: seq<Byte>, options: seq<Byte>)
    requires |body| >= 20 && |payload| == n && |b| == 12 + |body| && b[8..|b| - 4] == body
    requires body[20..] == payload + Zeros(PadLength(n)) + options
    ensures |b| - 4 >= 28 + Padded(n)
    ensures b[28..28 + n] == payload && b[28 + Padded(n)..|b| - 4] == options
    ensures forall k :: 28 + n <= k < 28 + Padded(n) ==> b[k] == 0
  {
    var tail := b[28..|b| - 4];
    assert tail == body[20..];
    assert Padded(n) == n + PadLength(n);
    assert tail[..n] == payload && tail[Padded(n)..] == options;
    forall k | 28 + n <= k < 28 + Padded(n)
      ensures b[k] == 0
    {
      assert b[k] == tail[k - 28] == Zeros(PadLength(n))[k - 28 - n];
    }
  }

  // ---- Resolutions and configuration ------------------------------------------------------

  const TENS := [1, 10, 100, 1000, 10000, 100000, 1000000, 10000000, 100000000, 1000000000]

  const TWOS := [1, 2, 4, 8, 16, 32, 64, 128, 256, 512, 1024, 2048, 4096, 8192, 16384, 32768, 65536, 131072, 262144,
                 524288, 1048576, 2097152, 4194304, 8388608, 16777216, 33554432, 67108864, 134217728, 268435456,
                 536870912, 1073741824]

  /** The resolution, in nanoseconds, that an if_tsresol byte stands for. */
  function UnitOf(raw: Byte): int {
    if raw <= 9 then 1000000000 / TENS[raw]
    else if 128 <= raw <= 158 then 1000000000 / TWOS[raw - 128]
    else 1000
  }

  lemma UnitsAreRead(raw: Byte)
    ensures ResolutionOf(raw) == UnitOf(raw)
  {
    if raw <= 9 {
      TableOfPowers(10, TENS, raw);
    } else if 128 <= raw <= 158 {
      TableOfPowers(2, TWOS, raw - 128);
    }
  }

  lemma {:induction false} TableOfPowers(base: nat, table: seq<int>, k: nat)
    requires k < |table| && table[0] == 1 && forall i :: 0 < i < |table| ==> table[i] == base * table[i - 1]
    ensures Power(base, k) == table[k] > 0 || base == 0
  {
    if k > 0 {
      TableOfPowers(base, table, k - 1);
    }
  }

  /** The first option of code 9 with a value decides in what unit an interface is read; without one, or where
      its unit is shorter than a nanosecond, it is the microsecond. */
  lemma {:induction false} FirstResolutionCounts(options: seq<BlockOption>)
    ensures (exists k :: 0 <= k < |options| && ResolvesAt(options, k))
         || (InterfaceResolution(options) == 1000 && forall o :: o in options ==> o.code != 9 || o.value == [])
    ensures forall k :: 0 <= k < |options| && ResolvesAt(options, k) ==>
              InterfaceResolution(options) == var unit := UnitOf(options[k].value[0]); if unit == 0 then 1000 else unit
  {
    hide ResolutionOf, UnitOf;
    if options != [] {
      var others := options[1..];
      FirstResolutionCounts(others);
      if options[0].code == 9 && options[0].value != [] {
        UnitsAreRead(options[0].value[0]);
        assert ResolvesAt(options, 0);
      } else {
        forall k | 0 <= k < |options| && ResolvesAt(options, k)
          ensures 0 < k && ResolvesAt(others, k - 1)
        {
        }
        if k :| 0 <= k < |others| && ResolvesAt(others, k) {
          assert ResolvesAt(options, k + 1);
        }
      }
    }
  }

  ghost predicate ResolvesAt(options: seq<BlockOption>, k: nat)
    requires k < |options|
  {
    && options[k].code == 9 && options[k].value != []
    && forall j :: 0 <= j < k ==> options[j].code != 9 || options[j].value == []
  }

  /** What the options of an interface set last: 0 when none sets a resolution. */
  function SettingOf(opts: seq<InterfaceOption>): int {
    if opts == [] then 0
    else
      match opts[|opts| - 1]
      case WithInterfaceTimestampResolution(res) => res
      case WithInterfaceOption(code, value) =>
        if code == 9 && value != [] then UnitOf(value[0]) else SettingOf(opts[..|opts| - 1])
  }

  lemma {:induction false} SettingIsLast(opts: seq<InterfaceOption>)
    ensures LastSetting(opts) == SettingOf(opts)
  {
    hide ResolutionOf, UnitOf;
    if opts != [] {
      SettingIsLast(opts[..|opts| - 1]);
      var last := opts[|opts| - 1];
      if last.WithInterfaceOption? && last.value != [] {
        UnitsAreRead(last.value[0]);
      }
    }
  }

  /** The options written for an interface are the caller's, in order, and an option 9 behind them, holding 9
      for nanoseconds or 6 for microseconds, unless the caller gave one or all is left at the microsecond. */
  lemma InterfaceOptionsMean(w: WriterState, opts: seq<InterfaceOption>)
    ensures var setting := SettingOf(opts);
            var res := if setting == 0 then w.defaultRes else setting;
            && EffectiveResolution(w, opts) == res
            && InterfaceOptions(w, opts)
               == if (exists o :: o in opts && o.WithInterfaceOption? && o.code == 9) || (setting == 0 && res == 1000)
                  then Ok(RawOptions(opts))
                  else if res == 1 then Ok(RawOptions(opts) + [BlockOption(9, [9])])
                  else if res == 1000 then Ok(RawOptions(opts) + [BlockOption(9, [6])])
                  else Err(UnsupportedResolution(res))
  {
    hide LastSetting, SettingOf, ConfigureInterface, RawOptions;
    ConfigureInterfaceMeaning(opts);
    SettingIsLast(opts);
    assert (exists o :: o in opts && IsRawResolution(o))
      <==> (exists o :: o in opts && o.WithInterfaceOption? && o.code == 9);
  }

  /** A writer option that makes NewWriter fail, and with what. */
  function Refusal(o: WriterOption): Option<WriteError> {
    match o
    case WithSectionVersion(major, _) => if major == 0 then Some(InvalidSectionVersion) else None
    case WithDefaultTimestampResolution(res) => if res in {1, 1000} then None else Some(UnsupportedResolution(res))
    case _ => None
  }

  /** The last option of a kind. */
  function Latest(opts: seq<WriterOption>, kind: WriterOption -> bool): (o: Option<WriterOption>)
    ensures o.Some? ==> kind(o.value)
  {
    if opts == [] then None
    else if kind(opts[|opts| - 1]) then Some(opts[|opts| - 1])
    else Latest(opts[..|opts| - 1], kind)
  }

  function SectionOptionsOf(opts: seq<WriterOption>): seq<BlockOption> {
    if opts == [] then []
    else
      SectionOptionsOf(opts[..|opts| - 1])
      + if opts[|opts| - 1].WithSectionOption? then [opts[|opts| - 1].option] else []
  }

  ghost predicate RefusedAt(opts: seq<WriterOption>, k: nat, e: WriteError)
    requires k < |opts|
  {
    Refusal(opts[k]) == Some(e) && forall j :: 0 <= j < k ==> Refusal(opts[j]).None?
  }

  /** A writer is made if and only if no option is refused; the first refused one is the error. */
  lemma {:induction false} RefusedExactly(opts: seq<WriterOption>)
    ensures ConfigureWriter(opts).Ok? <==> forall o :: o in opts ==> Refusal(o).None?
    ensures ConfigureWriter(opts).Err? ==>
              exists k :: 0 <= k < |opts| && RefusedAt(opts, k, ConfigureWriter(opts).error)
  {
    if opts != [] {
      var front, last := opts[..|opts| - 1], opts[|opts| - 1];
      RefusedExactly(front);
      assert forall o :: o in opts <==> o in front || o == last;
      if ConfigureWriter(front).Err? {
        var k :| 0 <= k < |front| && RefusedAt(front, k, ConfigureWriter(front).error);
        assert RefusedAt(opts, k, ConfigureWriter(front).error);
      } else if Refusal(last).Some? {
        forall j | 0 <= j < |front|
          ensures Refusal(opts[j]).None?
        {
          assert opts[j] == front[j] && front[j] in front;
        }
        assert RefusedAt(opts, |front|, Refusal(last).value);
        assert ConfigureWriter(opts) == Err(Refusal(last).value);
      }
    }
  }

  /** A writer is little-endian, of version 1.0, of unknown length, without options and stamps in microseconds;
      of the options of a kind the last one counts, and section options add up. */
  lemma {:induction false} ConfigurationMeans(opts: seq<WriterOption>)
    requires ConfigureWriter(opts).Ok?
    ensures var cfg := ConfigureWriter(opts).value;
            && cfg.order == (match Latest(opts, (o: WriterOption) => o.WithByteOrder?)
                             case Some(o) => o.order case None => LittleEndian)
            && cfg.major == (match Latest(opts, (o: WriterOption) => o.WithSectionVersion?)
                             case Some(o) => o.major case None => 1)
            && cfg.minor == (match Latest(opts, (o: WriterOption) => o.WithSectionVersion?)
                             case Some(o) => o.minor case None => 0)
            && cfg.sectionLength == (match Latest(opts, (o: WriterOption) => o.WithSectionLength?)
                                     case Some(o) => o.length case None => -1)
            && cfg.defaultRes == (match Latest(opts, (o: WriterOption) => o.WithDefaultTimestampResolution?)
                                  case Some(o) => o.res case None => 1000)
            && cfg.sectionOpts == SectionOptionsOf(opts)
  {
    if opts != [] {
      ConfigurationMeans(opts[..|opts| - 1]);
    }
  }

  // ---- What a reader takes ----------------------------------------------------------------

  /** Options that some bytes spell, up to an end mark or the last three bytes. */
  ghost predicate OptionsSpelled(order: ByteOrder, b: seq<Byte>, options: seq<BlockOption>)
    decreases |b|
  {
    if |b| < 4 then options == []
    else
      var code, length := Spelled16(order, b, 0), Spelled16(order, b, 2);
      var next := 4 + Padded(length);
      && next <= |b|
      && if code == 0 then options == []
         else
           && options != []
           && options[0].code == code && options[0].value == b[4..4 + length]
           && OptionsSpelled(order, b[next..], options[1..])
  }

  /** What is wrong with bytes that spell no options. */
  function OptionsFault(order: ByteOrder, b: seq<Byte>): Option<ReadError>
    decreases |b|
  {
    if |b| < 4 then None
    else
      var code, length := Spelled16(order, b, 0), Spelled16(order, b, 2);
      var next := 4 + Padded(length);
      if code != 0 && 4 + length > |b| then Some(if |b| == 4 then Eof else UnexpectedEof)
      else if next > |b| then Some(InvalidBlockLength)
      else if code == 0 then None
      else OptionsFault(order, b[next..])
  }

  lemma OptionIsRead(order: ByteOrder, b: seq<Byte>)
    requires |b| >= 4
    ensures 0 <= Spelled16(order, b, 2) < 65536
    ensures var code, length := Spelled16(order, b, 0), Spelled16(order, b, 2);
            var next := 4 + Padded(length);
            ParseOption(order, b)
            == if code != 0 && 4 + length > |b| then BadOption(if |b| == 4 then Eof else UnexpectedEof)
               else if next > |b| then BadOption(InvalidBlockLength)
               else if code == 0 then LastOption
               else NextOption(BlockOption(code, b[4..4 + length]), b[next..])
  {
    Gets16(order, b, 0);
    Gets16(order, b, 2);
    hide Spelled16, GetUint16;
    var length := Spelled16(order, b, 2);
    if 4 + Padded(length) <= |b| {
      assert b[4..][..length] == b[4..4 + length];
      assert b[4..][length..][PadLength(length)..] == b[4 + Padded(length)..];
    }
  }

  lemma {:induction false} OptionsAreRead(order: ByteOrder, b: seq<Byte>, options: seq<BlockOption>)
    ensures ParseOptions(order, b) == Ok(options) <==> OptionsSpelled(order, b, options)
    ensures ParseOptions(order, b).Err? <==> OptionsFault(order, b).Some?
    ensures ParseOptions(order, b).Err? ==> OptionsFault(order, b) == Some(ParseOptions(order, b).error)
    decreases |b|
  {
    hide Spelled16, ParseOption;
    if |b| >= 4 {
      OptionIsRead(order, b);
      if ParseOption(order, b).NextOption? {
        var others := ParseOption(order, b).rest;
        OptionsAreRead(order, others, if options == [] then [] else options[1..]);
        var tail := ParseOptions(order, others);
        if tail.Ok? && options != [] {
          assert options == [options[0]] + options[1..];
          assert ([ParseOption(order, b).option] + tail.value)[1..] == tail.value;
        }
      }
    }
  }

  /** An enhanced packet block at the front of an input. */
  ghost predicate PacketAt(order: ByteOrder, b: seq<Byte>, p: EnhancedPacket) {
    && 32 <= p.totalLength <= |b|
    && Spelled32(order, b, 0) == 6
    && Spelled32(order, b, 4) == p.totalLength && Spelled32(order, b, p.totalLength - 4) == p.totalLength
    && Spelled32(order, b, 8) == p.interfaceId
    && Spelled32(order, b, 12) == p.timestampHigh && Spelled32(order, b, 16) == p.timestampLow
    && Spelled32(order, b, 20) == p.capturedLen && Spelled32(order, b, 24) == p.originalLen
    && 32 + Padded(p.capturedLen) <= p.totalLength
    && p.packetData == b[28..28 + p.capturedLen]
    && OptionsSpelled(order, b[28 + Padded(p.capturedLen)..p.totalLength - 4], p.options)
  }

  /** An interface block at the front of an input; its id is no part of it. */
  ghost predicate InterfaceAt(order: ByteOrder, b: seq<Byte>, d: InterfaceDescription) {
    && 20 <= d.totalLength <= |b|
    && Spelled32(order, b, 0) == 1
    && Spelled32(order, b, 4) == d.totalLength && Spelled32(order, b, d.totalLength - 4) == d.totalLength
    && Spelled16(order, b, 8) == d.linkType && Spelled16(order, b, 10) == d.reserved
    && Spelled32(order, b, 12) == d.snapLen
    && OptionsSpelled(order, b[16..d.totalLength - 4], d.options)
  }

  /** A section header at the front of an input. Its section length is a number with a sign. */
  ghost predicate SectionAt(order: ByteOrder, b: seq<Byte>, h: SectionHeader) {
    && 28 <= h.totalLength <= |b|
    && b[..4] == [0x0A, 0x0D, 0x0D, 0x0A]
    && b[8..12] == (if order.LittleEndian? then [0x1A, 0x2B, 0x3C, 0x4D] else [0x4D, 0x3C, 0x2B, 0x1A])
    && h.byteOrderMagic == (if order.LittleEndian? then 0x1A2B3C4D else 0x4D3C2B1A)
    && Spelled32(order, b, 4) == h.totalLength && Spelled32(order, b, h.totalLength - 4) == h.totalLength
    && Spelled16(order, b, 12) == h.major && Spelled16(order, b, 14) == h.minor
    && (Spelled64(order, b, 16) - h.sectionLength) % 18446744073709551616 == 0
    && OptionsSpelled(order, b[24..h.totalLength - 4], h.options)
  }

  // ---- Bodies -----------------------------------------------------------------------------

  /** The fault of a block before its fields are looked at: too short a length, too little input (of which
      some bytes are taken already), or a second length that differs. */
  function LengthFault(order: ByteOrder, b: seq<Byte>, taken: nat): Option<ReadError>
    requires 8 <= taken <= |b|
  {
    var total := Spelled32(order, b, 4);
    if total < 12 then Some(InvalidBlockLength)
    else if |b| < total then Some(if |b| == taken then Eof else UnexpectedEof)
    else None
  }

  function BodyFault(order: ByteOrder, b: seq<Byte>, minimum: nat): Option<ReadError>
    requires minimum >= 12 && 8 <= |b|
    requires 0 <= Spelled32(order, b, 4) <= |b|
  {
    var total := Spelled32(order, b, 4);
    if total < minimum || Spelled32(order, b, total - 4) != total then Some(InvalidBlockLength) else None
  }

  lemma SpelledIsUint32(order: ByteOrder, b: seq<Byte>, at: nat)
    requires at + 4 <= |b|
    ensures 0 <= Spelled32(order, b, at) < TWO_32
  {
  }

  lemma HeaderLength(order: ByteOrder, b: seq<Byte>)
    requires |b| >= 8
    ensures GetUint32(order, b[..8][4..8]) == Spelled32(order, b, 4) < TWO_32
    ensures GetUint32(order, b[..8][..4]) == Spelled32(order, b, 0)
  {
    hide GetUint32, Spelled32;
    SpelledIsUint32(order, b, 4);
    Gets32(order, b, 4);
    Gets32(order, b, 0);
    assert b[..8][4..8] == b[4..8] && b[..8][..4] == b[0..4];
  }

  lemma BodyIsTaken(total: Uint32, b: seq<Byte>, taken: nat)
    requires 8 <= taken <= 12 && taken <= |b|
    ensures ReadBody(total, b[8..taken], b[taken..])
            == if total < 12 then Taken(Err(InvalidBlockLength), b[taken..])
               else if |b| < total then Taken(Err(if |b| == taken then Eof else UnexpectedEof), [])
               else Taken(Ok(b[8..total]), b[total..])
  {
    if 12 <= total <= |b| {
      var more := b[taken..][..total - taken];
      assert b[8..taken] + more == b[8..total] && b[taken..][total - taken..] == b[total..];
    }
  }

  lemma PayloadIsTaken(order: ByteOrder, total: Uint32, b: seq<Byte>, minimum: nat)
    requires 12 <= total <= |b| && minimum >= 4
    ensures Payload(order, total, b[8..total], minimum)
            == if total < 8 + minimum || Spelled32(order, b, total - 4) != total then Err(InvalidBlockLength)
               else Ok(b[8..total - 4])
  {
    hide GetUint32, Spelled32;
    var body := b[8..total];
    if |body| >= minimum {
      assert body[|body| - 4..] == b[total - 4..total] && body[..|body| - 4] == b[8..total - 4];
      Gets32(order, b, total - 4);
    }
  }

  lemma SliceInBody<T>(b: seq<T>, total: nat, low: nat, high: nat)
    requires 8 <= total - 4 && total <= |b| && low <= high <= total - 12
    ensures b[8..total - 4][low..high] == b[8 + low..8 + high]
  {
    SliceOfSlice(b, 8, total - 4, low, high);
  }

  /** A fault of the packet itself. */
  function PacketFault(order: ByteOrder, b: seq<Byte>): Option<ReadError>
    requires |b| >= 8 && 0 <= Spelled32(order, b, 4) <= |b|
  {
    var total := Spelled32(order, b, 4);
    if BodyFault(order, b, 32).Some? then BodyFault(order, b, 32)
    else
      var n := Spelled32(order, b, 20);
      if 32 + Padded(n) > total then Some(InvalidBlockLength)
      else OptionsFault(order, b[28 + Padded(n)..total - 4])
  }

  lemma PacketIsParsed(order: ByteOrder, b: seq<Byte>, total: Uint32, p: EnhancedPacket)
    requires 12 <= total <= |b| && Spelled32(order, b, 4) == total && Spelled32(order, b, 0) == 6
    ensures ParsePacket(order, total, b[8..total]) == Ok(p) <==> PacketAt(order, b, p)
    ensures ParsePacket(order, total, b[8..total]).Err? <==> PacketFault(order, b).Some?
    ensures ParsePacket(order, total, b[8..total]).Err? ==>
              PacketFault(order, b) == Some(ParsePacket(order, total, b[8..total]).error)
  {
    hide GetUint32, Spelled32, ParseOptions, OptionsSpelled, OptionsFault, Payload, PadLength, Padded;
    PayloadIsTaken(order, total, b, 24);
    if total >= 32 && Spelled32(order, b, total - 4) == total {
      PacketFieldsAreRead(order, b, total);
      var n := Spelled32(order, b, 20);
      SpelledIsUint32(order, b, 20);
      assert Padded(n) == n + PadLength(n) by { PaddedPads(n); }
      if 32 + Padded(n) <= total {
        var data := b[8..total - 4][20..];
        assert data == b[28..total - 4] by { SliceInBody(b, total, 20, total - 12); }
        assert data[Padded(n)..] == b[28 + Padded(n)..total - 4];
        assert data[..n] == b[28..28 + n];
        var tail := b[28 + Padded(n)..total - 4];
        OptionsAreRead(order, tail, p.options);
      }
    }
  }

  lemma PaddedPads(n: nat)
    ensures Padded(n) == n + PadLength(n)
  {
  }

  lemma PacketFieldsAreRead(order: ByteOrder, b: seq<Byte>, total: Uint32)
    requires 32 <= total <= |b|
    ensures var p := b[8..total - 4];
            && |p| == total - 12
            && GetUint32(order, p[..4]) == Spelled32(order, b, 8) && GetUint32(order, p[4..8]) == Spelled32(order, b, 12)
            && GetUint32(order, p[8..12]) == Spelled32(order, b, 16) && GetUint32(order, p[12..16]) == Spelled32(order, b, 20)
            && GetUint32(order, p[16..20]) == Spelled32(order, b, 24)
  {
    hide GetUint32, Spelled32;
    SliceInBody(b, total, 0, 4);
    SliceInBody(b, total, 4, 8);
    SliceInBody(b, total, 8, 12);
    SliceInBody(b, total, 12, 16);
    SliceInBody(b, total, 16, 20);
    Gets32(order, b, 8);
    Gets32(order, b, 12);
    Gets32(order, b, 16);
    Gets32(order, b, 20);
    Gets32(order, b, 24);
    assert b[8..total - 4][..4] == b[8..total - 4][0..4];
  }

  function InterfaceFault(order: ByteOrder, b: seq<Byte>): Option<ReadError>
    requires |b| >= 8 && 0 <= Spelled32(order, b, 4) <= |b|
  {
    if BodyFault(order, b, 20).Some? then BodyFault(order, b, 20)
    else OptionsFault(order, b[16..Spelled32(order, b, 4) - 4])
  }

  lemma InterfaceIsParsed(order: ByteOrder, b: seq<Byte>, total: Uint32, d: InterfaceDescription)
    requires 12 <= total <= |b| && Spelled32(order, b, 4) == total && Spelled32(order, b, 0) == 1
    ensures ParseInterface(order, total, b[8..total]) == Ok(d) <==> InterfaceAt(order, b, d) && d.id == 0
    ensures ParseInterface(order, total, b[8..total]).Ok? ==> ParseInterface(order, total, b[8..total]).value.id == 0
    ensures ParseInterface(order, total, b[8..total]).Err? <==> InterfaceFault(order, b).Some?
    ensures ParseInterface(order, total, b[8..total]).Err? ==>
              InterfaceFault(order, b) == Some(ParseInterface(order, total, b[8..total]).error)
  {
    hide GetUint32, GetUint16, Spelled16, Spelled32, ParseOptions, OptionsSpelled, OptionsFault, Payload;
    PayloadIsTaken(order, total, b, 12);
    if total >= 20 && Spelled32(order, b, total - 4) == total {
      var p := b[8..total - 4];
      SliceInBody(b, total, 0, 2);
      SliceInBody(b, total, 2, 4);
      SliceInBody(b, total, 4, 8);
      SliceInBody(b, total, 8, total - 12);
      Gets16(order, b, 8);
      Gets16(order, b, 10);
      Gets32(order, b, 12);
      assert p[..2] == p[0..2] && p[8..] == p[8..total - 12];
      OptionsAreRead(order, b[16..total - 4], d.options);
    }
  }

  function SectionFault(order: ByteOrder, b: seq<Byte>): Option<ReadError>
    requires |b| >= 8 && 0 <= Spelled32(order, b, 4) <= |b|
  {
    if BodyFault(order, b, 28).Some? then BodyFault(order, b, 28)
    else OptionsFault(order, b[24..Spelled32(order, b, 4) - 4])
  }

  /** The byte order that the magic says. */
  function OrderAt(b: seq<Byte>): Option<ByteOrder>
    requires |b| >= 12
  {
    if b[8..12] == [0x1A, 0x2B, 0x3C, 0x4D] then Some(LittleEndian)
    else if b[8..12] == [0x4D, 0x3C, 0x2B, 0x1A] then Some(BigEndian)
    else None
  }

  lemma MagicIsRead(b: seq<Byte>)
    requires |b| >= 12
    ensures MagicOrder(GetUint32(BigEndian, b[8..12])) == OrderAt(b)
    ensures OrderAt(b).Some? ==>
              GetUint32(BigEndian, b[8..12]) == if OrderAt(b) == Some(LittleEndian) then 0x1A2B3C4D else 0x4D3C2B1A
  {
    hide GetUint32;
    Gets32(BigEndian, b, 8);
    var w := b[8..12];
    BytesOf(w, 0x1A, 0x2B, 0x3C, 0x4D);
    BytesOf(w, 0x4D, 0x3C, 0x2B, 0x1A);
    assert Spelled32(BigEndian, b, 8) == Spelled32(BigEndian, w, 0);
  }

  lemma BytesOf(w: seq<Byte>, p: Byte, q: Byte, r: Byte, s: Byte)
    requires |w| == 4
    ensures w == [p, q, r, s]
       <==> Spelled32(BigEndian, w, 0) == (var a: int, b: int, c: int, d: int := p, q, r, s;
                                           16777216 * a + 65536 * b + 256 * c + d)
  {
  }

  lemma SectionIsParsed(order: ByteOrder, b: seq<Byte>, total: Uint32, h: SectionHeader)
    requires 12 <= total <= |b| && Spelled32(order, b, 4) == total
    requires b[..4] == [0x0A, 0x0D, 0x0D, 0x0A] && OrderAt(b) == Some(order)
    ensures ParseSection(order, total, b[8..total]) == Ok(h) <==> SectionAt(order, b, h)
    ensures ParseSection(order, total, b[8..total]).Err? <==> SectionFault(order, b).Some?
    ensures ParseSection(order, total, b[8..total]).Err? ==>
              SectionFault(order, b) == Some(ParseSection(order, total, b[8..total]).error)
  {
    hide GetUint32, GetUint16, GetUint64, Spelled16, Spelled32, Spelled64, ParseOptions, OptionsSpelled, OptionsFault,
      Payload, MagicOrder;
    PayloadIsTaken(order, total, b, 20);
    if total >= 28 && Spelled32(order, b, total - 4) == total {
      var p := b[8..total - 4];
      SliceInBody(b, total, 0, 4);
      SliceInBody(b, total, 4, 6);
      SliceInBody(b, total, 6, 8);
      SliceInBody(b, total, 8, 16);
      SliceInBody(b, total, 16, total - 12);
      Gets16(order, b, 12);
      Gets16(order, b, 14);
      Gets64(order, b, 16);
      MagicIsRead(b);
      assert p[..4] == p[0..4] && p[16..] == p[16..total - 12];
      OptionsAreRead(order, b[24..total - 4], h.options);
      SignedLength(GetUint64(order, p[8..16]), h.sectionLength);
    }
  }

  lemma SignedLength(u: Uint64, v: Int64)
    ensures ToInt64(u) == v <==> (u - v) % 18446744073709551616 == 0
  {
  }

  // ---- Blocks -----------------------------------------------------------------------------

  /** The fault of a block of a section whose byte order is known, by its type. */
  function BlockFault(order: ByteOrder, b: seq<Byte>): Option<ReadError>
    requires |b| >= 8
  {
    SpelledIsUint32(order, b, 0);
    SpelledIsUint32(order, b, 4);
    var kind := Spelled32(order, b, 0);
    if LengthFault(order, b, 8).Some? then LengthFault(order, b, 8)
    else if kind == 1 then InterfaceFault(order, b)
    else if kind == 6 then PacketFault(order, b)
    else Some(UnsupportedBlockType(kind))
  }

  function HeaderFault(b: seq<Byte>): Option<ReadError>
    requires |b| >= 8
  {
    if |b| < 12 then Some(if |b| == 8 then Eof else UnexpectedEof)
    else if OrderAt(b).None? then Some(InvalidSection)
    else
      var order := OrderAt(b).value;
      SpelledIsUint32(order, b, 4);
      if LengthFault(order, b, 12).Some? then LengthFault(order, b, 12) else SectionFault(order, b)
  }

  /** What keeps a reader from taking a block off the front of an input. */
  function Fault(s: ReaderState, b: seq<Byte>): Option<ReadError> {
    if |b| < 8 then Some(if b == [] then Eof else UnexpectedEof)
    else if b[..4] == [0x0A, 0x0D, 0x0D, 0x0A] then HeaderFault(b)
    else if s.order.None? then Some(InvalidSection)
    else BlockFault(s.order.value, b)
  }

  /** The number that marks a section header is the same in both byte orders. */
  lemma SectionTypeIsRead(order: ByteOrder, b: seq<Byte>)
    requires |b| >= 8
    ensures GetUint32(order, b[..8][..4]) == SECTION_HEADER_BLOCK <==> b[..4] == [0x0A, 0x0D, 0x0D, 0x0A]
    ensures GetUint32(order, b[..8][..4]) == Spelled32(order, b, 0)
  {
    HeaderLength(order, b);
  }

  lemma BlockIsRead(s: ReaderState, order: ByteOrder, b: seq<Byte>, block: Block)
    requires |b| >= 8 && s.order == Some(order) && b[..4] != [0x0A, 0x0D, 0x0D, 0x0A]
    ensures var step := NextStep(s, b);
            && (step.outcome == Ok(block) <==>
                  (block.PacketBlock? && PacketAt(order, b, block.packet))
                  || (block.InterfaceBlock? && InterfaceAt(order, b, block.description)
                      && block.description.id == s.nextInterface))
            && (step.outcome.Err? <==> BlockFault(order, b).Some?)
            && (step.outcome.Err? ==> BlockFault(order, b) == Some(step.outcome.error))
  {
    hide GetUint32, Spelled32, SectionStep, ReadBody, ParsePacket, ParseInterface, PacketAt, InterfaceAt,
      PacketFault, InterfaceFault, WithInterface;
    SectionTypeIsRead(order, b);
    HeaderLength(order, b);
    SpelledIsUint32(order, b, 4);
    var total := Spelled32(order, b, 4);
    var kind := Spelled32(order, b, 0);
    BodyIsTaken(total, b, 8);
    assert b[8..8] == [];
    assert NextStep(s, b) == BlockStep(s, order, kind, total, b[8..]);
    KindOfBlock(order, b, block);
    if 12 <= total <= |b| {
      if kind == 6 {
        PacketIsParsed(order, b, total, if block.PacketBlock? then block.packet else NoPacket());
      } else if kind == 1 {
        InterfaceIsParsed(order, b, total, if block.InterfaceBlock? then block.description.(id := 0) else NoInterface());
        if block.InterfaceBlock? {
          IdIsNoPart(order, b, block.description);
        }
      }
    }
  }

  function NoPacket(): EnhancedPacket {
    EnhancedPacket(0, 0, 0, 0, 0, 0, [], [])
  }

  function NoInterface(): InterfaceDescription {
    InterfaceDescription(0, 0, 0, 0, 0, [])
  }

  lemma IdIsNoPart(order: ByteOrder, b: seq<Byte>, d: InterfaceDescription)
    ensures InterfaceAt(order, b, d.(id := 0)) <==> InterfaceAt(order, b, d)
  {
  }

  lemma KindOfBlock(order: ByteOrder, b: seq<Byte>, block: Block)
    requires |b| >= 8
    ensures block.PacketBlock? && PacketAt(order, b, block.packet) ==>
              Spelled32(order, b, 0) == 6 && 12 <= Spelled32(order, b, 4) <= |b|
    ensures block.InterfaceBlock? && InterfaceAt(order, b, block.description) ==>
              Spelled32(order, b, 0) == 1 && 12 <= Spelled32(order, b, 4) <= |b|
  {
    hide Spelled32, OptionsSpelled;
  }

  lemma HeaderIsRead(s: ReaderState, b: seq<Byte>, block: Block)
    requires |b| >= 8 && b[..4] == [0x0A, 0x0D, 0x0D, 0x0A]
    ensures var step := NextStep(s, b);
            && (step.outcome == Ok(block) <==>
                  |b| >= 12 && OrderAt(b).Some? && block.SectionBlock? && SectionAt(OrderAt(b).value, b, block.section))
            && (step.outcome.Err? <==> HeaderFault(b).Some?)
            && (step.outcome.Err? ==> HeaderFault(b) == Some(step.outcome.error))
            && (step.outcome == Ok(block) ==> step.state.order == OrderAt(b))
  {
    hide GetUint32, Spelled32, ReadBody, ParseSection, SectionAt, SectionFault, MagicOrder;
    SectionTypeIsRead(if s.order.Some? then s.order.value else LittleEndian, b);
    assert NextStep(s, b) == SectionStep(s, b[..8], b[8..]);
    if |b| >= 12 {
      assert b[8..][..4] == b[8..12] && b[8..][4..] == b[12..];
      MagicIsRead(b);
      if OrderAt(b).Some? {
        var order := OrderAt(b).value;
        HeaderLength(order, b);
        var total := Spelled32(order, b, 4);
        BodyIsTaken(total, b, 12);
        LengthOfSection(order, b, block);
        if 12 <= total <= |b| {
          SectionIsParsed(order, b, total, if block.SectionBlock? then block.section else NoSection());
        }
      }
    }
  }

  function NoSection(): SectionHeader {
    SectionHeader(0, 0, 0, 0, 0, [])
  }

  lemma LengthOfSection(order: ByteOrder, b: seq<Byte>, block: Block)
    ensures block.SectionBlock? && SectionAt(order, b, block.section) ==> 12 <= Spelled32(order, b, 4) <= |b|
  {
    hide Spelled32, OptionsSpelled;
  }

  /** A reader takes a block off an input if and only if it stands there; otherwise it fails with its fault. */
  lemma BlocksAreRead(s: ReaderState, input: seq<Byte>, block: Block)
    ensures NextStep(s, input).outcome == Ok(block) <==> Stands(s, input, block)
    ensures NextStep(s, input).outcome.Err? <==> Fault(s, input).Some?
    ensures NextStep(s, input).outcome.Err? ==> Fault(s, input) == Some(NextStep(s, input).outcome.error)
  {
    hide SectionStep, BlockStep, PacketAt, InterfaceAt, SectionAt, GetUint32, HeaderFault, BlockFault;
    TooShortForAnything(s, input, block);
    if |input| >= 8 {
      if input[..4] == [0x0A, 0x0D, 0x0D, 0x0A] {
        HeaderIsRead(s, input, block);
        OnlyHeader(s, input, block);
      } else {
        OnlyBlock(s, input, block);
        if s.order.Some? {
          BlockIsRead(s, s.order.value, input, block);
        } else {
          SectionTypeIsRead(LittleEndian, input);
        }
      }
    }
  }

  ghost predicate Stands(s: ReaderState, input: seq<Byte>, block: Block) {
    match block
    case SectionBlock(h) => |input| >= 12 && OrderAt(input).Some? && SectionAt(OrderAt(input).value, input, h)
    case InterfaceBlock(d) => s.order.Some? && InterfaceAt(s.order.value, input, d) && d.id == s.nextInterface
    case PacketBlock(p) => s.order.Some? && PacketAt(s.order.value, input, p)
  }

  lemma TooShortForAnything(s: ReaderState, input: seq<Byte>, block: Block)
    ensures Stands(s, input, block) ==> |input| >= 12
  {
    hide Spelled16, Spelled32, OptionsSpelled;
  }

  lemma OnlyHeader(s: ReaderState, input: seq<Byte>, block: Block)
    requires |input| >= 8 && input[..4] == [0x0A, 0x0D, 0x0D, 0x0A]
    ensures Stands(s, input, block) ==> block.SectionBlock?
  {
    hide OptionsSpelled;
    if s.order.Some? {
      SectionTypeIsRead(s.order.value, input);
    }
  }

  lemma OnlyBlock(s: ReaderState, input: seq<Byte>, block: Block)
    requires |input| >= 8 && input[..4] != [0x0A, 0x0D, 0x0D, 0x0A]
    ensures Stands(s, input, block) ==> !block.SectionBlock?
  {
    hide OptionsSpelled;
  }

  /** What follows a block is left over; a section header sets the byte order and forgets all interfaces, an
      interface gets the next id, and nothing else changes. */
  lemma BlocksAreTaken(s: ReaderState, input: seq<Byte>, block: Block)
    requires Stands(s, input, block)
    ensures var step := NextStep(s, input);
            && step.outcome == Ok(block)
            && block.TotalLength() <= |input| && step.rest == input[block.TotalLength()..]
            && step.state == match block
                             case SectionBlock(h) => ReaderState(OrderAt(input), Some(h), map[], 0)
                             case InterfaceBlock(d) =>
                               s.(interfaces := s.interfaces[d.id := InterfaceInfo(d, InterfaceResolution(d.options))],
                                  nextInterface := (s.nextInterface + 1) % 4294967296)
                             case PacketBlock(_) => s
  {
    hide SectionStep, BlockStep, Stands, GetUint32;
    BlocksAreRead(s, input, block);
    StepConsumes(s, input);
    StateAfter(s, input, block);
  }

  lemma StateAfter(s: ReaderState, input: seq<Byte>, block: Block)
    requires NextStep(s, input).outcome == Ok(block)
    ensures |input| >= 12
    ensures NextStep(s, input).state == match block
                                        case SectionBlock(h) => ReaderState(OrderAt(input), Some(h), map[], 0)
                                        case InterfaceBlock(d) => WithInterface(s, d)
                                        case PacketBlock(_) => s
    ensures block.InterfaceBlock? ==> block.description.id == s.nextInterface
  {
    hide GetUint32, ReadBody, ParsePacket, ParseInterface, ParseSection, WithInterface, MagicOrder, OrderAt;
    StepConsumes(s, input);
    assert input[8..][..4] == input[8..12];
    MagicIsRead(input);
    var typeOrder := if s.order.Some? then s.order.value else LittleEndian;
    SectionTypeIsRead(typeOrder, input);
  }

  /** A packet is stamped with its tick count, in nanoseconds where its interface is known to be read so and
      otherwise in microseconds; nothing else of it changes. */
  lemma PacketsAreStamped(s: ReaderState, p: EnhancedPacket)
    ensures var packet := ToPacket(s, p);
            && packet.interfaceId == p.interfaceId && packet.data == p.packetData
            && packet.capturedLen == p.capturedLen && packet.originalLen == p.originalLen
            && packet.options == p.options
            && packet.timestamp.unix * 1000000000 + packet.timestamp.nanos
               == (4294967296 * p.timestampHigh + p.timestampLow)
                  * if p.interfaceId in s.interfaces && s.interfaces[p.interfaceId].tsRes == 1 then 1 else 1000
  {
  }
}
