/** Block datatypes of the pcapng file format and the timestamp arithmetic shared by its
    writer and its reader. Durations are counted in nanoseconds, as Go's time.Duration does. */
module PcapngBlocks {
  import opened Bytes

  const SECTION_HEADER_BLOCK: Uint32 := 0x0A0D0D0A
  const INTERFACE_DESCRIPTION_BLOCK: Uint32 := 0x00000001
  const ENHANCED_PACKET_BLOCK: Uint32 := 0x00000006

  const BYTE_ORDER_MAGIC_LITTLE: Uint32 := 0x1A2B3C4D
  const BYTE_ORDER_MAGIC_BIG: Uint32 := 0x4D3C2B1A

  const OPTION_END: Uint16 := 0
  const OPTION_IF_TSRESOL: Uint16 := 9

  const NANOSECOND := 1
  const MICROSECOND := 1_000
  const SECOND := 1_000_000_000

  datatype BlockOption = BlockOption(code: Uint16, value: seq<Byte>)

  datatype SectionHeader = SectionHeader(totalLength: Uint32, byteOrderMagic: Uint32, major: Uint16, minor: Uint16,
                                         sectionLength: Int64, options: seq<BlockOption>)

  datatype InterfaceDescription = InterfaceDescription(totalLength: Uint32, id: Uint32, linkType: Uint16,
                                                       reserved: Uint16, snapLen: Uint32, options: seq<BlockOption>)

  datatype EnhancedPacket = EnhancedPacket(totalLength: Uint32, interfaceId: Uint32,
                                           timestampHigh: Uint32, timestampLow: Uint32,
                                           capturedLen: Uint32, originalLen: Uint32,
                                           packetData: seq<Byte>, options: seq<BlockOption>)

  datatype Block =
    | SectionBlock(section: SectionHeader)
    | InterfaceBlock(description: InterfaceDescription)
    | PacketBlock(packet: EnhancedPacket)
  {
    function TotalLength(): Uint32 {
      match this
      case SectionBlock(s) => s.totalLength
      case InterfaceBlock(d) => d.totalLength
      case PacketBlock(p) => p.totalLength
    }
  }

  type Nanos = n: int | 0 <= n < SECOND

  /** An instant: seconds since the Unix epoch and the nanoseconds within that second. */
  datatype Time = Time(unix: Int64, nanos: Nanos)

  /** Go's zero time.Time, the first instant of the year 1. */
  const ZERO_TIME := Time(-62_135_596_800, 0)

  /** EnhancedPacketBlock.Timestamp: every resolution but the nanosecond is read as microseconds. */
  function TimestampAt(high: Uint32, low: Uint32, resolution: int): Time {
    var combined := TWO_32 * high + low;
    if resolution == NANOSECOND then
      Time(combined / 1_000_000_000, combined % 1_000_000_000)
    else
      Time(combined / 1_000_000, combined % 1_000_000 * 1_000)
  }

  function Power(base: nat, n: nat): nat {
    if n == 0 then 1 else base * Power(base, n - 1)
  }

  lemma PowerPositive(base: nat, n: nat)
    requires base > 0
    ensures Power(base, n) > 0
  {
  }

  /** What an if_tsresol byte means: a power of ten, or with the top bit a power of two, of a
      second; values out of range fall back to the microsecond. */
  function ResolutionOf(raw: Byte): int {
    if raw <= 9 then
      PowerPositive(10, raw); SECOND / Power(10, raw)
    else if 0x80 <= raw <= 0x80 + 30 then
      PowerPositive(2, raw - 0x80); SECOND / Power(2, raw - 0x80)
    else
      MICROSECOND
  }

  method ParseTimestampResolution(raw: Byte) returns (d: int)
    ensures d == ResolutionOf(raw)
  {
    if raw < 0x80 {
      if raw == 6 {
        assert Power(10, 3) == 1_000;
        assert Power(10, 6) == 1_000 * Power(10, 3);
        return MICROSECOND;
      }
      if raw == 9 {
        assert Power(10, 3) == 1_000;
        assert Power(10, 6) == 1_000 * Power(10, 3);
        assert Power(10, 9) == 1_000 * Power(10, 6);
        return NANOSECOND;
      }
      if raw <= 9 {
        var divisor: nat := 1;
        for i := 0 to raw
          invariant divisor == Power(10, i)
        {
          divisor := divisor * 10;
        }
        PowerPositive(10, raw);
        return SECOND / divisor;
      }
      return MICROSECOND;
    }
    var power := raw - 0x80;
    if power <= 30 {
      PowerPositive(2, power);
      return SECOND / Power(2, power);
    }
    return MICROSECOND;
  }

  lemma StandardResolutions()
    ensures ResolutionOf(6) == MICROSECOND
    ensures ResolutionOf(9) == NANOSECOND
  {
    assert Power(10, 3) == 1_000;
    assert Power(10, 6) == 1_000 * Power(10, 3);
    assert Power(10, 9) == 1_000 * Power(10, 6);
  }
}
