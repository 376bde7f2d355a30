/** The pcapng reader. Functions give the meaning of each read as a new state, the unread
    input and an outcome; the class at the end computes them step by step. */
module PcapngReader {
  import opened Wrappers
  import opened Bytes
  import opened PcapngBlocks

  /** Eof and UnexpectedEof are Go's io.EOF and io.ErrUnexpectedEOF. */
  datatype ReadError =
    | Eof
    | UnexpectedEof
    | InvalidBlockLength
    | InvalidSection
    | UnsupportedBlockType(blockType: Uint32)

  /** io.ReadFull of n bytes: what was read, and what is left afterwards. */
  datatype Taken = Taken(bytes: Result<seq<Byte>, ReadError>, rest: seq<Byte>)

  function ReadFull(input: seq<Byte>, n: nat): (t: Taken)
    ensures t.bytes.Ok? <==> n <= |input|
    ensures t.bytes.Ok? ==> |t.bytes.value| == n && input == t.bytes.value + t.rest
    ensures t.bytes.Err? ==> t.rest == [] && t.bytes.error == if input == [] then Eof else UnexpectedEof
  {
    if n <= |input| then Taken(Ok(input[..n]), input[n..])
    else Taken(Err(if input == [] then Eof else UnexpectedEof), [])
  }

  // ---- Options ----------------------------------------------------------------------------

  /** One round of the option loop. */
  datatype OptionStep =
    | LastOption
    | NextOption(option: BlockOption, rest: seq<Byte>)
    | BadOption(error: ReadError)

  function ParseOption(order: ByteOrder, data: seq<Byte>): (s: OptionStep)
    requires |data| >= 4
    ensures s.NextOption? ==> s.option.code != OPTION_END && |s.option.value| < TWO_16
    ensures s.NextOption? ==> |data| == |s.rest| + 4 + |s.option.value| + PadLength(|s.option.value|)
  {
    var code := GetUint16(order, data[..2]);
    var length := GetUint16(order, data[2..4]);
    var body := data[4..];
    if code == OPTION_END then
      if length + PadLength(length) > |body| then BadOption(InvalidBlockLength) else LastOption
    else
      var value := ReadFull(body, length);
      if value.bytes.Err? then BadOption(value.bytes.error)
      else if PadLength(length) > |value.rest| then BadOption(InvalidBlockLength)
      else NextOption(BlockOption(code, value.bytes.value), value.rest[PadLength(length)..])
  }

  function ParseOptions(order: ByteOrder, data: seq<Byte>): Result<seq<BlockOption>, ReadError>
    decreases |data|
  {
    if |data| < 4 then Ok([])
    else
      match ParseOption(order, data)
      case LastOption => Ok([])
      case BadOption(e) => Err(e)
      case NextOption(option, rest) => Prepend([option], ParseOptions(order, rest))
  }

  function Prepend(front: seq<BlockOption>, r: Result<seq<BlockOption>, ReadError>): Result<seq<BlockOption>, ReadError> {
    if r.Ok? then Ok(front + r.value) else r
  }

  lemma PrependNothing(r: Result<seq<BlockOption>, ReadError>)
    ensures Prepend([], r) == r
  {
    if r.Ok? {
      assert [] + r.value == r.value;
    }
  }

  // ---- Block bodies -----------------------------------------------------------------------

  /** The payload of a body whose trailing length agrees with the leading one. */
  function Payload(order: ByteOrder, totalLength: Uint32, body: seq<Byte>, minimum: nat): (r: Result<seq<Byte>, ReadError>)
    requires minimum >= 4
    ensures r.Ok? ==> |body| >= minimum && |r.value| == |body| - 4
  {
    if |body| < minimum then Err(InvalidBlockLength)
    else if GetUint32(order, body[|body| - 4..]) != totalLength then Err(InvalidBlockLength)
    else Ok(body[..|body| - 4])
  }

  function ParseSection(order: ByteOrder, totalLength: Uint32, body: seq<Byte>): (r: Result<SectionHeader, ReadError>)
    ensures r.Ok? ==> r.value.totalLength == totalLength
  {
    var payload := Payload(order, totalLength, body, 20);
    if payload.Err? then Err(payload.error)
    else
      var p := payload.value;
      match ParseOptions(order, p[16..])
      case Err(e) => Err(e)
      case Ok(options) =>
        Ok(SectionHeader(totalLength, GetUint32(BigEndian, p[..4]), GetUint16(order, p[4..6]),
                         GetUint16(order, p[6..8]), ToInt64(GetUint64(order, p[8..16])), options))
  }

  /** The ID is assigned afterwards, by position. */
  function ParseInterface(order: ByteOrder, totalLength: Uint32, body: seq<Byte>): (r: Result<InterfaceDescription, ReadError>)
    ensures r.Ok? ==> r.value.totalLength == totalLength
  {
    var payload := Payload(order, totalLength, body, 12);
    if payload.Err? then Err(payload.error)
    else
      var p := payload.value;
      match ParseOptions(order, p[8..])
      case Err(e) => Err(e)
      case Ok(options) =>
        Ok(InterfaceDescription(totalLength, 0, GetUint16(order, p[..2]), GetUint16(order, p[2..4]),
                                GetUint32(order, p[4..8]), options))
  }

  function ParsePacket(order: ByteOrder, totalLength: Uint32, body: seq<Byte>): (r: Result<EnhancedPacket, ReadError>)
    ensures r.Ok? ==> r.value.totalLength == totalLength && |r.value.packetData| == r.value.capturedLen
  {
    var payload := Payload(order, totalLength, body, 24);
    if payload.Err? then Err(payload.error)
    else
      var p := payload.value;
      var capturedLen := GetUint32(order, p[12..16]);
      var data := p[20..];
      if capturedLen > |data| || capturedLen + PadLength(capturedLen) > |data| then Err(InvalidBlockLength)
      else
        match ParseOptions(order, data[capturedLen + PadLength(capturedLen)..])
        case Err(e) => Err(e)
        case Ok(options) =>
          Ok(EnhancedPacket(totalLength, GetUint32(order, p[..4]), GetUint32(order, p[4..8]),
                            GetUint32(order, p[8..12]), capturedLen, GetUint32(order, p[16..20]),
                            data[..capturedLen], options))
  }

  // ---- Reader state and its operations ----------------------------------------------------

  datatype InterfaceInfo = InterfaceInfo(block: InterfaceDescription, tsRes: int)

  datatype ReaderState = ReaderState(order: Option<ByteOrder>, section: Option<SectionHeader>,
                                     interfaces: map<Uint32, InterfaceInfo>, nextInterface: Uint32)

  const INITIAL := ReaderState(None, None, map[], 0)

  /** What one NextBlock does. On success the outcome is the block. */
  datatype Step = Step(state: ReaderState, rest: seq<Byte>, outcome: Result<Block, ReadError>)

  /** The if_tsresol of the first nonempty option that carries one, or 0. */
  function OptionResolution(options: seq<BlockOption>): int {
    if options == [] then 0
    else if options[0].code == OPTION_IF_TSRESOL && |options[0].value| > 0 then ResolutionOf(options[0].value[0])
    else OptionResolution(options[1..])
  }

  function InterfaceResolution(options: seq<BlockOption>): (d: int)
    ensures d != 0
  {
    if OptionResolution(options) == 0 then MICROSECOND else OptionResolution(options)
  }

  function ReadBody(totalLength: Uint32, prefix: seq<Byte>, input: seq<Byte>): (t: Taken)
    ensures t.bytes.Ok? ==>
              && totalLength >= 12 && |t.bytes.value| == totalLength - 8
              && t.bytes.value + t.rest == prefix + input
  {
    if totalLength < 12 || totalLength - 8 < |prefix| then Taken(Err(InvalidBlockLength), input)
    else
      var t := ReadFull(input, totalLength - 8 - |prefix|);
      if t.bytes.Err? then t else Taken(Ok(prefix + t.bytes.value), t.rest)
  }

  function MagicOrder(magic: Uint32): Option<ByteOrder> {
    if magic == BYTE_ORDER_MAGIC_LITTLE then Some(LittleEndian)
    else if magic == BYTE_ORDER_MAGIC_BIG then Some(BigEndian)
    else None
  }

  function SectionStep(s: ReaderState, header: seq<Byte>, input: seq<Byte>): Step
    requires |header| == 8
  {
    var bom := ReadFull(input, 4);
    if bom.bytes.Err? then Step(s, bom.rest, Err(bom.bytes.error))
    else
      match MagicOrder(GetUint32(BigEndian, bom.bytes.value))
      case None => Step(s, bom.rest, Err(InvalidSection))
      case Some(order) =>
        var totalLength := GetUint32(order, header[4..8]);
        var body := ReadBody(totalLength, bom.bytes.value, bom.rest);
        if body.bytes.Err? then Step(s, body.rest, Err(body.bytes.error))
        else
          match ParseSection(order, totalLength, body.bytes.value)
          case Err(e) => Step(s, body.rest, Err(e))
          case Ok(section) =>
            Step(ReaderState(Some(order), Some(section), map[], 0), body.rest, Ok(SectionBlock(section)))
  }

  function WithInterface(s: ReaderState, description: InterfaceDescription): ReaderState {
    s.(interfaces := s.interfaces[s.nextInterface :=
                       InterfaceInfo(description, InterfaceResolution(description.options))],
       nextInterface := (s.nextInterface + 1) % TWO_32)
  }

  /** Any block but a section header, in a section whose byte order is known. */
  function BlockStep(s: ReaderState, order: ByteOrder, blockType: Uint32, totalLength: Uint32, input: seq<Byte>): Step {
    var body := ReadBody(totalLength, [], input);
    if body.bytes.Err? then Step(s, body.rest, Err(body.bytes.error))
    else if blockType == INTERFACE_DESCRIPTION_BLOCK then
      match ParseInterface(order, totalLength, body.bytes.value)
      case Err(e) => Step(s, body.rest, Err(e))
      case Ok(description) =>
        var block := description.(id := s.nextInterface);
        Step(WithInterface(s, block), body.rest, Ok(InterfaceBlock(block)))
    else if blockType == ENHANCED_PACKET_BLOCK then
      match ParsePacket(order, totalLength, body.bytes.value)
      case Err(e) => Step(s, body.rest, Err(e))
      case Ok(packet) => Step(s, body.rest, Ok(PacketBlock(packet)))
    else
      Step(s, body.rest, Err(UnsupportedBlockType(blockType)))
  }

  function NextStep(s: ReaderState, input: seq<Byte>): Step {
    var header := ReadFull(input, 8);
    if header.bytes.Err? then Step(s, header.rest, Err(header.bytes.error))
    else
      var hdr := header.bytes.value;
      var typeOrder := if s.order.Some? then s.order.value else LittleEndian;
      var blockType := GetUint32(typeOrder, hdr[..4]);
      if blockType == SECTION_HEADER_BLOCK then SectionStep(s, hdr, header.rest)
      else if s.order.None? then Step(s, header.rest, Err(InvalidSection))
      else BlockStep(s, s.order.value, blockType, GetUint32(s.order.value, hdr[4..8]), header.rest)
  }

  // ---- What every step keeps, on arbitrary input ------------------------------------------

  /** A successful step consumes exactly the block's declared total length; any step only ever
      drops a prefix of the input; and a step never leaves the byte order unset behind a block. */
  lemma StepConsumes(s: ReaderState, input: seq<Byte>)
    ensures var step := NextStep(s, input);
            && |step.rest| <= |input| && step.rest == input[|input| - |step.rest|..]
            && (step.outcome.Ok? ==>
                  && 12 <= step.outcome.value.TotalLength() <= |input|
                  && step.rest == input[step.outcome.value.TotalLength()..]
                  && step.state.order.Some?)
            && (step.outcome.Err? ==> step.state == s)
  {
    hide GetUint32, SectionStep, BlockStep, Behind;
    if |input| >= 8 {
      BehindHeader(s, input);
      FromHeader(s, input, NextStep(s, input));
    }
  }

  /** What a step does with what follows the header of a block. */
  ghost predicate Behind(s: ReaderState, rest: seq<Byte>, step: Step) {
    && |step.rest| <= |rest| && step.rest == rest[|rest| - |step.rest|..]
    && (step.outcome.Ok? ==> step.outcome.value.TotalLength() == 8 + |rest| - |step.rest| >= 12 && step.state.order.Some?)
    && (step.outcome.Err? ==> step.state == s)
  }

  lemma BehindHeader(s: ReaderState, input: seq<Byte>)
    requires |input| >= 8
    ensures Behind(s, input[8..], NextStep(s, input))
  {
    hide GetUint32, SectionStep, BlockStep;
    var hdr, rest := input[..8], input[8..];
    var blockType := GetUint32(if s.order.Some? then s.order.value else LittleEndian, hdr[..4]);
    if blockType == SECTION_HEADER_BLOCK {
      SectionConsumes(s, hdr, rest);
    } else if s.order.Some? {
      BlockConsumes(s, s.order.value, blockType, GetUint32(s.order.value, hdr[4..8]), rest);
    }
  }

  lemma FromHeader(s: ReaderState, input: seq<Byte>, step: Step)
    requires |input| >= 8 && Behind(s, input[8..], step)
    ensures |step.rest| <= |input| && step.rest == input[|input| - |step.rest|..]
    ensures step.outcome.Ok? ==>
              && 12 <= step.outcome.value.TotalLength() <= |input|
              && step.rest == input[step.outcome.value.TotalLength()..]
              && step.state.order.Some?
    ensures step.outcome.Err? ==> step.state == s
  {
    SuffixOfSuffix(input, 8, step.rest);
  }

  lemma SuffixOfSuffix<T>(s: seq<T>, m: nat, rest: seq<T>)
    requires m <= |s| && |rest| <= |s| - m && rest == s[m..][|s| - m - |rest|..]
    ensures rest == s[|s| - |rest|..]
  {
  }

  lemma SectionConsumes(s: ReaderState, header: seq<Byte>, input: seq<Byte>)
    requires |header| == 8
    ensures var step := SectionStep(s, header, input);
            && |step.rest| <= |input| && step.rest == input[|input| - |step.rest|..]
            && (step.outcome.Ok? ==>
                  && step.outcome.value.SectionBlock?
                  && step.state.order.Some? && step.state.section.Some?
                  && step.state.interfaces == map[] && step.state.nextInterface == 0
                  && step.outcome.value.TotalLength() == 8 + |input| - |step.rest| >= 12)
            && (step.outcome.Err? ==> step.state == s)
  {
    hide GetUint32, ParseSection, MagicOrder, ReadBody, ReadFull;
    var bom := ReadFull(input, 4);
    if bom.bytes.Ok? && MagicOrder(GetUint32(BigEndian, bom.bytes.value)).Some? {
      var order := MagicOrder(GetUint32(BigEndian, bom.bytes.value)).value;
      BodyConsumes(GetUint32(order, header[4..8]), bom.bytes.value, bom.rest, input);
    }
  }

  lemma BodyConsumes(totalLength: Uint32, prefix: seq<Byte>, rest: seq<Byte>, input: seq<Byte>)
    requires input == prefix + rest
    ensures var t := ReadBody(totalLength, prefix, rest);
            && |t.rest| <= |input| && t.rest == input[|input| - |t.rest|..]
            && (t.bytes.Ok? ==> |input| - |t.rest| == totalLength - 8 >= 4)
  {
    var t := ReadBody(totalLength, prefix, rest);
    if t.bytes.Ok? {
      Slices(t.bytes.value, t.rest);
    }
  }

  lemma BlockConsumes(s: ReaderState, order: ByteOrder, blockType: Uint32, totalLength: Uint32, input: seq<Byte>)
    requires s.order == Some(order)
    ensures var step := BlockStep(s, order, blockType, totalLength, input);
            && |step.rest| <= |input| && step.rest == input[|input| - |step.rest|..]
            && (step.outcome.Ok? ==>
                  && !step.outcome.value.SectionBlock?
                  && step.state == (if step.outcome.value.InterfaceBlock?
                                    then WithInterface(s, step.outcome.value.description) else s)
                  && (step.outcome.value.InterfaceBlock? ==> step.outcome.value.description.id == s.nextInterface)
                  && step.outcome.value.TotalLength() == totalLength == 8 + |input| - |step.rest| >= 12)
            && (step.outcome.Err? ==> step.state == s)
  {
    hide ParseInterface, ParsePacket, ReadBody, WithInterface;
    assert [] + input == input;
    BodyConsumes(totalLength, [], input, input);
  }

  // ---- Numbering over a whole input -------------------------------------------------------

  /** The interface blocks of the present section, after one more block. */
  function Since(seen: seq<InterfaceDescription>, block: Block): seq<InterfaceDescription> {
    match block
    case SectionBlock(_) => []
    case InterfaceBlock(description) => seen + [description]
    case PacketBlock(_) => seen
  }

  function SinceAll(seen: seq<InterfaceDescription>, blocks: seq<Block>): seq<InterfaceDescription>
    decreases |blocks|
  {
    if blocks == [] then seen else SinceAll(Since(seen, blocks[0]), blocks[1..])
  }

  predicate Declares(seen: seq<InterfaceDescription>, id: Uint32) {
    exists k :: 0 <= k < |seen| && seen[k].id == id
  }

  /** The last interface block with an id. */
  function LatestOf(seen: seq<InterfaceDescription>, id: Uint32): (d: InterfaceDescription)
    requires Declares(seen, id)
    ensures d.id == id
  {
    if seen[|seen| - 1].id == id then seen[|seen| - 1]
    else
      DeclaredEarlier(seen, id);
      LatestOf(seen[..|seen| - 1], id)
  }

  lemma DeclaredEarlier(seen: seq<InterfaceDescription>, id: Uint32)
    requires Declares(seen, id) && seen[|seen| - 1].id != id
    ensures Declares(seen[..|seen| - 1], id)
  {
    var k :| 0 <= k < |seen| && seen[k].id == id;
    assert seen[..|seen| - 1][k].id == id;
  }

  /** The ids of a section's interfaces count up from 0, and from 0 again after 2^32 of them; the reader
      knows each id by the last interface that got it. */
  ghost predicate NumberedBy(s: ReaderState, seen: seq<InterfaceDescription>) {
    && (forall k :: 0 <= k < |seen| ==> seen[k].id == k % TWO_32)
    && s.nextInterface == |seen| % TWO_32
    && (forall id :: id in s.interfaces <==> Declares(seen, id))
    && (forall id :: id in s.interfaces ==>
          s.interfaces[id] == InterfaceInfo(LatestOf(seen, id), InterfaceResolution(LatestOf(seen, id).options)))
  }

  lemma NextNumber(s: ReaderState, seen: seq<InterfaceDescription>)
    requires NumberedBy(s, seen)
    ensures s.nextInterface == |seen| % TWO_32
  {
  }

  lemma Numbers(s: ReaderState, seen: seq<InterfaceDescription>, k: nat)
    requires NumberedBy(s, seen) && k < |seen|
    ensures seen[k].id == k % TWO_32
  {
  }

  lemma KnownByNumber(s: ReaderState, seen: seq<InterfaceDescription>, id: Uint32)
    requires NumberedBy(s, seen) && id in s.interfaces
    ensures Declares(seen, id)
    ensures s.interfaces[id] == InterfaceInfo(LatestOf(seen, id), InterfaceResolution(LatestOf(seen, id).options))
  {
    hide LatestOf, InterfaceResolution;
  }

  lemma DeclaredAt(seen: seq<InterfaceDescription>, id: Uint32) returns (k: nat)
    requires Declares(seen, id)
    ensures k < |seen| && seen[k].id == id
  {
    k :| 0 <= k < |seen| && seen[k].id == id;
  }

  lemma InterfaceNumbers(s: ReaderState, seen: seq<InterfaceDescription>, block: InterfaceDescription)
    requires NumberedBy(s, seen) && block.id == s.nextInterface
    ensures NumberedBy(WithInterface(s, block), seen + [block])
  {
    hide InterfaceResolution;
    var more := seen + [block];
    assert more[..|more| - 1] == seen;
    forall id: Uint32
      ensures Declares(more, id) <==> id == block.id || Declares(seen, id)
      ensures Declares(more, id) ==> LatestOf(more, id) == if id == block.id then block else LatestOf(seen, id)
    {
      if Declares(seen, id) {
        var k :| 0 <= k < |seen| && seen[k].id == id;
        assert more[k].id == id;
      }
      assert more[|seen|] == block;
    }
  }

  lemma StepNumbers(s: ReaderState, input: seq<Byte>, seen: seq<InterfaceDescription>)
    requires NumberedBy(s, seen)
    ensures var step := NextStep(s, input);
            NumberedBy(step.state, if step.outcome.Ok? then Since(seen, step.outcome.value) else seen)
  {
    hide GetUint32, SectionStep, BlockStep, InterfaceResolution, NumberedBy, WithInterface;
    var header := ReadFull(input, 8);
    if header.bytes.Ok? {
      var hdr := header.bytes.value;
      SectionConsumes(s, hdr, header.rest);
      NothingNumbered();
      if s.order.Some? {
        BlockConsumes(s, s.order.value, GetUint32(s.order.value, hdr[..4]), GetUint32(s.order.value, hdr[4..8]),
                      header.rest);
        var step := NextStep(s, input);
        if step.outcome.Ok? && step.outcome.value.InterfaceBlock? {
          InterfaceNumbers(s, seen, step.outcome.value.description);
        }
      }
    }
  }

  lemma NothingNumbered()
    ensures forall s: ReaderState :: s.interfaces == map[] && s.nextInterface == 0 ==> NumberedBy(s, [])
  {
  }

  /** The first n blocks of an input, or as many as can be read, and the state after them. */
  function ReadBlocks(s: ReaderState, input: seq<Byte>, n: nat): (seq<Block>, ReaderState)
    decreases n
  {
    var step := NextStep(s, input);
    if n == 0 || step.outcome.Err? then ([], s)
    else
      var (blocks, after) := ReadBlocks(step.state, step.rest, n - 1);
      ([step.outcome.value] + blocks, after)
  }

  lemma {:induction false} BlocksNumber(s: ReaderState, input: seq<Byte>, n: nat, seen: seq<InterfaceDescription>)
    requires NumberedBy(s, seen)
    ensures var (blocks, after) := ReadBlocks(s, input, n);
            NumberedBy(after, SinceAll(seen, blocks))
    decreases n
  {
    hide NumberedBy, NextStep;
    var step := NextStep(s, input);
    if n > 0 && step.outcome.Ok? {
      StepNumbers(s, input, seen);
      BlocksNumber(step.state, step.rest, n - 1, Since(seen, step.outcome.value));
    }
  }

  /** On arbitrary input, after any number of blocks: the interfaces of the present section are numbered
      0, 1, 2 and so on in order of appearance, from 0 again after 2^32 of them, and the reader knows
      exactly those ids, each by the last interface block that got it. */
  lemma InputIsNumbered(input: seq<Byte>, n: nat)
    ensures var (blocks, after) := ReadBlocks(INITIAL, input, n);
            NumberedBy(after, SinceAll([], blocks))
  {
    NothingNumbered();
    BlocksNumber(INITIAL, input, n, []);
  }

  // ---- Packets ----------------------------------------------------------------------------

  datatype Packet = Packet(interfaceId: Uint32, data: seq<Byte>, timestamp: Time, capturedLen: Uint32,
                           originalLen: Uint32, options: seq<BlockOption>)

  function ToPacket(s: ReaderState, epb: EnhancedPacket): Packet {
    var tsRes := if epb.interfaceId in s.interfaces && s.interfaces[epb.interfaceId].tsRes != 0
                 then s.interfaces[epb.interfaceId].tsRes else MICROSECOND;
    Packet(epb.interfaceId, epb.packetData, TimestampAt(epb.timestampHigh, epb.timestampLow, tsRes),
           epb.capturedLen, epb.originalLen, epb.options)
  }

  datatype PacketStep = PacketStep(state: ReaderState, rest: seq<Byte>, outcome: Result<Packet, ReadError>)

  /** ReadPacket: skip blocks up to the next packet. It terminates because every block read
      shortens the input. */
  function NextPacket(s: ReaderState, input: seq<Byte>): (p: PacketStep)
    ensures p.outcome.Ok? ==> |p.rest| < |input|
    decreases |input|
  {
    StepConsumes(s, input);
    var step := NextStep(s, input);
    match step.outcome
    case Err(e) => PacketStep(step.state, step.rest, Err(e))
    case Ok(PacketBlock(epb)) => PacketStep(step.state, step.rest, Ok(ToPacket(step.state, epb)))
    case Ok(_) => NextPacket(step.state, step.rest)
  }

  /** Every packet of an input, and the error that ends it. */
  datatype Contents = Contents(packets: seq<Packet>, end: ReadError)

  function ReadAll(s: ReaderState, input: seq<Byte>): Contents
    decreases |input|
  {
    var next := NextPacket(s, input);
    match next.outcome
    case Err(e) => Contents([], e)
    case Ok(packet) =>
      var others := ReadAll(next.state, next.rest);
      Contents([packet] + others.packets, others.end)
  }

  /** ReadAll one block at a time. */
  lemma ReadAllStep(s: ReaderState, input: seq<Byte>)
    ensures var step := NextStep(s, input);
            |step.rest| <= |input| && (step.outcome.Ok? ==> |step.rest| < |input|) &&
            ReadAll(s, input) == match step.outcome
                                 case Err(e) => Contents([], e)
                                 case Ok(PacketBlock(epb)) =>
                                   var others := ReadAll(step.state, step.rest);
                                   Contents([ToPacket(step.state, epb)] + others.packets, others.end)
                                 case Ok(_) => ReadAll(step.state, step.rest)
  {
    StepConsumes(s, input);
  }

  // ---- The reader object ------------------------------------------------------------------

  lemma OptionConsumed(order: ByteOrder, options: seq<BlockOption>, data: seq<Byte>)
    requires |data| >= 4 && ParseOption(order, data).NextOption?
    ensures var step := ParseOption(order, data);
            Prepend(options, ParseOptions(order, data)) == Prepend(options + [step.option], ParseOptions(order, step.rest))
  {
    hide ParseOption;
    var step := ParseOption(order, data);
    var tail := ParseOptions(order, step.rest);
    if tail.Ok? {
      Associative(options, [step.option], tail.value);
    }
  }

  lemma OptionsEnd(order: ByteOrder, options: seq<BlockOption>, data: seq<Byte>)
    requires |data| < 4 || !ParseOption(order, data).NextOption?
    ensures Prepend(options, ParseOptions(order, data))
         == if |data| < 4 || ParseOption(order, data).LastOption? then Ok(options)
            else Err(ParseOption(order, data).error)
  {
    hide ParseOption;
    assert options + [] == options;
  }

  method ParseOptionsLoop(data: seq<Byte>, order: ByteOrder) returns (r: Result<seq<BlockOption>, ReadError>)
    ensures r == ParseOptions(order, data)
  {
    hide ParseOptions, Prepend, GetUint16, ReadFull, PadLength;
    var options: seq<BlockOption> := [];
    var reader := data;
    PrependNothing(ParseOptions(order, data));
    while |reader| >= 4
      invariant ParseOptions(order, data) == Prepend(options, ParseOptions(order, reader))
      decreases |reader|
    {
      var code := GetUint16(order, reader[..2]);
      var length := GetUint16(order, reader[2..4]);
      ghost var before := reader;
      ghost var step := ParseOption(order, before);
      if step.NextOption? {
        OptionConsumed(order, options, before);
      } else {
        OptionsEnd(order, options, before);
      }
      reader := reader[4..];
      if code == 0 {
        if length + PadLength(length) > |reader| {
          return Err(InvalidBlockLength);
        }
        return Ok(options);
      }
      var value := ReadFull(reader, length);
      if value.bytes.Err? {
        return Err(value.bytes.error);
      }
      var pad := PadLength(length);
      if pad > |value.rest| {
        return Err(InvalidBlockLength);
      }
      options := options + [BlockOption(code, value.bytes.value)];
      reader := value.rest[pad..];
    }
    OptionsEnd(order, options, reader);
    return Ok(options);
  }

  class Reader {
    var input: seq<Byte>
    var order: Option<ByteOrder>
    var section: Option<SectionHeader>
    var interfaces: map<Uint32, InterfaceInfo>
    var nextInterface: Uint32

    ghost function State(): ReaderState
      reads this
    {
      ReaderState(order, section, interfaces, nextInterface)
    }

    constructor (bytes: seq<Byte>)
      ensures State() == INITIAL && input == bytes
    {
      input := bytes;
      order := None;
      section := None;
      interfaces := map[];
      nextInterface := 0;
    }

    method Take(n: nat) returns (r: Result<seq<Byte>, ReadError>)
      modifies this`input
      ensures Taken(r, input) == ReadFull(old(input), n)
    {
      var t := ReadFull(input, n);
      input := t.rest;
      return t.bytes;
    }

    method TakeBody(totalLength: Uint32, prefix: seq<Byte>) returns (r: Result<seq<Byte>, ReadError>)
      modifies this`input
      ensures Taken(r, input) == ReadBody(totalLength, prefix, old(input))
    {
      if totalLength < 12 {
        return Err(InvalidBlockLength);
      }
      var bodyLen := totalLength - 8;
      if bodyLen < |prefix| {
        return Err(InvalidBlockLength);
      }
      r := Take(bodyLen - |prefix|);
      if r.Ok? {
        r := Ok(prefix + r.value);
      }
    }

    method NextBlock() returns (r: Result<Block, ReadError>)
      modifies this
      ensures Step(State(), input, r) == NextStep(old(State()), old(input))
    {
      var hdr := Take(8);
      if hdr.Err? {
        return Err(hdr.error);
      }
      var blockType: Uint32;
      if order.Some? {
        blockType := GetUint32(order.value, hdr.value[..4]);
      } else {
        blockType := GetUint32(LittleEndian, hdr.value[..4]);
      }
      if order.None? && blockType != SECTION_HEADER_BLOCK {
        return Err(InvalidSection);
      }
      if blockType == SECTION_HEADER_BLOCK {
        r := NextSection(hdr.value);
      } else if blockType == INTERFACE_DESCRIPTION_BLOCK {
        r := NextInterface(GetUint32(order.value, hdr.value[4..8]));
      } else if blockType == ENHANCED_PACKET_BLOCK {
        var totalLength := GetUint32(order.value, hdr.value[4..8]);
        var body := TakeBody(totalLength, []);
        if body.Err? {
          return Err(body.error);
        }
        var parsed := ParsePacket(order.value, totalLength, body.value);
        if parsed.Err? {
          return Err(parsed.error);
        }
        return Ok(PacketBlock(parsed.value));
      } else {
        var totalLength := GetUint32(order.value, hdr.value[4..8]);
        var body := TakeBody(totalLength, []);
        if body.Err? {
          return Err(body.error);
        }
        return Err(UnsupportedBlockType(blockType));
      }
    }

    method NextInterface(totalLength: Uint32) returns (r: Result<Block, ReadError>)
      requires order.Some?
      modifies this
      ensures Step(State(), input, r)
              == BlockStep(old(State()), old(order.value), INTERFACE_DESCRIPTION_BLOCK, totalLength, old(input))
    {
      var body := TakeBody(totalLength, []);
      if body.Err? {
        return Err(body.error);
      }
      var parsed := ParseInterface(order.value, totalLength, body.value);
      if parsed.Err? {
        return Err(parsed.error);
      }
      var block := parsed.value.(id := nextInterface);
      nextInterface := (nextInterface + 1) % TWO_32;
      var tsRes := OptionResolution(block.options);
      if tsRes == 0 {
        tsRes := MICROSECOND;
      }
      interfaces := interfaces[block.id := InterfaceInfo(block, tsRes)];
      return Ok(InterfaceBlock(block));
    }

    method NextSection(hdr: seq<Byte>) returns (r: Result<Block, ReadError>)
      requires |hdr| == 8
      modifies this
      ensures Step(State(), input, r) == SectionStep(old(State()), hdr, old(input))
    {
      var bom := Take(4);
      if bom.Err? {
        return Err(bom.error);
      }
      var magic := GetUint32(BigEndian, bom.value);
      var newOrder: ByteOrder;
      if magic == BYTE_ORDER_MAGIC_LITTLE {
        newOrder := LittleEndian;
      } else if magic == BYTE_ORDER_MAGIC_BIG {
        newOrder := BigEndian;
      } else {
        return Err(InvalidSection);
      }
      var totalLength := GetUint32(newOrder, hdr[4..8]);
      var body := TakeBody(totalLength, bom.value);
      if body.Err? {
        return Err(body.error);
      }
      var block := ParseSection(newOrder, totalLength, body.value);
      if block.Err? {
        return Err(block.error);
      }
      order := Some(newOrder);
      section := Some(block.value);
      interfaces := map[];
      nextInterface := 0;
      return Ok(SectionBlock(block.value));
    }

    method ReadPacket() returns (r: Result<Packet, ReadError>)
      modifies this
      ensures PacketStep(State(), input, r) == NextPacket(old(State()), old(input))
    {
      while true
        invariant NextPacket(State(), input) == NextPacket(old(State()), old(input))
        decreases |input|
      {
        StepConsumes(State(), input);
        var block := NextBlock();
        if block.Err? {
          return Err(block.error);
        }
        if block.value.PacketBlock? {
          var epb := block.value.packet;
          var tsRes := MICROSECOND;
          if epb.interfaceId in interfaces && interfaces[epb.interfaceId].tsRes != 0 {
            tsRes := interfaces[epb.interfaceId].tsRes;
          }
          return Ok(Packet(epb.interfaceId, epb.packetData,
                           TimestampAt(epb.timestampHigh, epb.timestampLow, tsRes),
                           epb.capturedLen, epb.originalLen, epb.options));
        }
      }
    }
  }
}
