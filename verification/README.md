# Verified models of nine components

This project models nine components of the gk toolkit in Dafny and proves what they promise. Each
component that changes state is a class or a method with loops, proved against a specification on
values; the promises are lemmas about that specification, over every input, run or reachable state.

- **pcapng** (`gnet/pcapng`): `Bytes`, `PcapngBlocks`, `PcapngWriter`, `PcapngReader`, `PcapngLayout` (both
  sides byte by byte), `PcapngRoundTrip`, `PcapngFile`, `PcapngFilter`, `PcapngCopies`. The writer emits
  length-framed blocks in either byte order; the reader takes them apart again. The main theorem is the exact
  round trip of a whole file; the filter copies a file through it. The layout is that of
  draft-ietf-opsawg-pcapng, sections 3.1, 3.5 and 4.1 to 4.3, but writer and reader alike map the byte-order
  magic to the byte orders opposite to section 4.1, so that the two agree without conforming there.
- **The HTTP router** (`ghttp/gserver`): `RoutePaths`, `RouteTrie`, `RouteTrieLaws`, `RouteTree` (the
  linked nodes), `RouteRegistry` (the list of routes and its linear scan), `RouteHistory`,
  `RouteMatcher`, `RouteMeaning` (said of paths alone), `RouteParams`, `RouteBindings`, `RouteReports`.
- **Nested transactions and migrations** (`gsql/tx.go`, `gsql/db.go`, `gsql/migrate.go`): `NestedTx`,
  `NestedHistory` (which statements survive), `TxObjects`, `Migrate`. A session is a state, a stack of named
  snapshots, and whether the transaction has ended; a callback is a tree of statements, nested calls, commits
  and rollbacks that branches on what they return. A migration run is such a callback, given to the same
  transaction object.
- **Caches** (`gcache`): `CacheList`, `LruCache`, `LruHistory`, `LfuCache`, `LfuLists`, `LfuCacheObjects`.
- **The SQL builder** (`gsql/builder.go`, `gsql/dialect.go`): `SqlHoles`, `SqlBuilder`, `SqlCounting`,
  `SqlMeaning`, `SqlPlaceholders`, `SqlStatements`, `SqlNumbered`.
- **WSDL schemas and XML trees** (`gws/internal/wsdl`): `SchemaLoading`, `SchemaErrors`, `SchemaMerging`,
  `SchemaDocument`, `XmlTree`, `XmlMeaning`.
- **Middleware** (`ghttp/gserver/context.go`): `Middleware`, `MiddlewareHistory`.
- **Load balancing** (`glb/strategy.go`): `LoadBalancing`.
- **curl printing** (`ghttp/gclient/curl.go`): `CurlCommand`.

`dafny verify dfyconfig.toml` checks the whole project.

Several promises turned out to hold under a condition only. The code is modelled as it is, and the
condition is proved exact, or a counterexample is given:

- A slice of two or more elements under PostgreSQL is rendered `$1, $3, $5` and so on: the loop adds its
  own counter to the length of the argument list that it is growing (gsql/builder.go:461-464). No
  such statement names its own arguments.
- An UPDATE under PostgreSQL numbers its conditions from $1 again (gsql/builder.go:341-361), so it compares
  with the values of its columns: it says what it means exactly when these happen to be the same.
- With question marks, a list after a single value in the same condition replaces the wrong hole.
- Savepoint names must differ between neighbouring levels, or between all levels on a database that
  replaces a savepoint of the same name; the default names do.
- A callback that commits the outermost transaction itself is reported as failed or panicked, with the
  database changed all the same (gsql/db.go:166-178). A migration whose up function does so is never
  recorded, every run of it fails, and every run applies it again.
- A raw if_tsresol option with an empty value makes writer and reader disagree on the resolution.
- A parameter name used twice can be lost: exactly when an alternative that is tried first below its
  binding, in vain, uses the name as well and the route found does not bind it again from there on.
- Where two routes name the same position differently the first one's name is reported: a route added
  later gets its own names exactly when the positions already there have them. After any history, what a
  match reports is given in full, and it is the route's own parameters exactly when the tree that is
  consulted keeps the route's names.
- Removing a parameter route of a segment count that no addition has mentioned dereferences a nil tree.
- FilterCopy's comment says that a new section resets the interface mapping (gnet/pcapng/filter.go:11);
  the code keeps it, so packets are copied under the declaration in force when their interface was
  first met. They come through unchanged exactly when each fits that declaration.
- The method of a printed curl command is not quoted: every request with a method is read back exactly
  when the shell leaves that method alone.

## Model

| member | source | states |
|---|---|---|
| `PcapngRoundTrip.FileReadsBack` | gnet/pcapng/writer.go:44-305 | For every byte order, default resolution and interleaving of AddInterface and WritePacket calls, failing ones included, whose options encode, sizes fit and timestamps are in range, reading the file gives exactly the written packets in order (interface id, data cut at the snap length, both lengths, options, timestamp cut to the resolution) and then end of file. |
| `PcapngFile.FileReadsBackExactly` | gnet/pcapng/writer.go:44-305 | For every writer configuration and list of calls, reading the file gives its section header, every interface as declared, with whether it is read in nanoseconds, every packet as meant, in order, and then end of file, if and only if every option encodes, every block fits its length field, every timestamp fits in 64 bits and no raw if_tsresol option contradicts the resolution in force. |
| `PcapngFile.CallShows` | gnet/pcapng/writer.go:119-250 | The block of one call shows the reader what the call meant if and only if that call is readable, whatever follows. |
| `PcapngFile.ItemsHoldPackets` | gnet/pcapng/reader.go:158-186 | On any bytes, the packets among the items are exactly what repeated ReadPacket calls give. |
| `PcapngFile.WrittenHoldPackets` | gnet/pcapng/writer.go:195-225 | The packets among the items written are exactly those of the calls that write one. |
| `PcapngLayout.PacketIsLaidOut` | gnet/pcapng/writer.go:195-250 | A packet block byte by byte, in either order, each field spelled as its bytes times powers of 256: type 6 at 0, total length at 4 and in the last four bytes, interface at 8, the 64-bit tick count in halves at 12 and 16, captured length at 20, original length at 24, data from 28, zeros up to a multiple of four, options; there is one if and only if the interface is known and stamps in nanoseconds or microseconds, and otherwise the error says which. |
| `PcapngLayout.InterfaceIsLaidOut` | gnet/pcapng/writer.go:177-193 | An interface block byte by byte: type 1 at 0, total length at 4 and at the end, link type at 8, zero at 10, snap length at 12, options from 16, each with code, length, value and zeros, and the end mark. |
| `PcapngLayout.SectionIsLaidOut` | gnet/pcapng/writer.go:86-117 | A section header byte by byte: type 0x0A0D0D0A at 0, total length at 4 and at the end, the four magic bytes at 8, version at 12 and 14, section length at 16, all ones for a negative one, options from 24. |
| `PcapngLayout.BlocksAreRead` | gnet/pcapng/reader.go:56-366 | On arbitrary bytes and in any state, a reader takes a block if and only if that block stands there in bytes at fixed offsets, and otherwise fails with exactly the first fault of those bytes. |
| `PcapngLayout.BlocksAreTaken` | gnet/pcapng/reader.go:106-156 | The rest of the input is then left; a section header sets the byte order and forgets the interfaces, an interface gets the next id and its resolution, and a packet changes nothing. |
| `PcapngLayout.PacketsAreStamped` | gnet/pcapng/reader.go:158-186 | A packet gets its tick count as nanoseconds where its interface is known to be read so and as microseconds everywhere else, and keeps every other field. |
| `PcapngLayout.FirstResolutionCounts` | gnet/pcapng/reader.go:379-389 | The first option of code 9 with a value decides the unit of an interface; without one, or for a unit shorter than a nanosecond, it is the microsecond. |
| `PcapngLayout.UnitsAreRead` | gnet/pcapng/reader.go:391-417 | What each of the 256 resolution bytes means, from a table of powers of ten and of two. |
| `PcapngLayout.InterfaceOptionsMean` | gnet/pcapng/writer.go:119-151 | The options written for an interface are the caller's, then an option 9 holding 9 or 6 unless the caller gave one or everything is left at the microsecond; any other resolution is the error. |
| `PcapngLayout.ConfigurationMeans` | gnet/pcapng/writer.go:356-400 | Without options a writer is little-endian, of version 1.0, unknown length and microseconds; the last option of a kind counts and section options add up. |
| `PcapngLayout.RefusedExactly` | gnet/pcapng/writer.go:60-68 | NewWriter fails if and only if some option is refused, with the error of the first one. |
| `PcapngRoundTrip.CutFileReadsBack` | gnet/pcapng/reader.go:56-202 | A file cut at any byte inside its last block gives every packet written before that block, nothing else, and ends with one of the two end-of-file errors. |
| `PcapngRoundTrip.RunReadsBack` | gnet/pcapng/writer.go:119-250 | Any run of calls keeps the interface tables of writer and reader in simulation and reads back as the packets it meant, whatever bytes follow. |
| `PcapngRoundTrip.CallReadsBack` | gnet/pcapng/writer.go:119-250 | One call, failing or not, keeps the two interface tables in simulation, and its bytes are consumed as one block that leaves what follows untouched. |
| `PcapngRoundTrip.WriteThenRead` | gnet/pcapng/reader.go:158-186 | The writer object driven by any readable list of calls and then the reader object give back exactly the written packets and end of file. |
| `PcapngRoundTrip.OptionsReadBack` | gnet/pcapng/writer.go:264-279 | An option list survives encoding and parsing, in either byte order, if and only if no code is the end mark and every value is at most 65535 bytes. |
| `PcapngRoundTrip.TimestampReadsBack` | gnet/pcapng/writer.go:292-305 | A timestamp split into halves comes back, cut to the resolution, if and only if its tick count fits 64 bits. |
| `PcapngRoundTrip.ResolutionsMustAgree` | gnet/pcapng/blocks.go:71-83 | All in-range timestamps survive a writer and a reader holding different resolutions if and only if the two agree on whether it is the nanosecond. |
| `PcapngRoundTrip.InterfaceResolutionReadsBack` | gnet/pcapng/writer.go:119-151 | The reader stamps packets of an interface as the writer does if and only if the caller passed no raw if_tsresol option, or the first one agrees with the setting in force. |
| `PcapngRoundTrip.EmptyRawResolutionMisleads` | gnet/pcapng/reader.go:379-389 | A concrete interface whose raw if_tsresol has no value: the writer stamps nanoseconds, the reader reads microseconds. |
| `PcapngRoundTrip.InterfaceBlockReadsBack` | gnet/pcapng/writer.go:177-193 | An interface block is read as written if and only if its options encode and it fits a 32-bit length; the rest of the input is then untouched and the table extended. |
| `PcapngRoundTrip.PacketBlockReadsBack` | gnet/pcapng/writer.go:227-250 | A packet block is read as written, its padding taken off, if and only if its options encode and it fits a 32-bit length; the rest of the input is then untouched. |
| `PcapngRoundTrip.SectionReadsBack` | gnet/pcapng/writer.go:86-117 | A section header reads back as meant, a negative section length as -1, if and only if its options encode and it fits a 32-bit length; it then gives the reader the writer's byte order and an empty interface table, whatever was read before. |
| `PcapngWriter.Writer.NewWriter` | gnet/pcapng/writer.go:44-84 | A writer is made exactly when every option is accepted; it has then written the section header of the final configuration, and otherwise returns the first option error. |
| `PcapngWriter.Writer.AddInterface` | gnet/pcapng/writer.go:119-175 | Appends exactly the interface block and records it under the next id, or fails on a resolution it cannot encode and changes nothing. |
| `PcapngWriter.Writer.WritePacket` | gnet/pcapng/writer.go:195-225 | Appends exactly the packet block, stamped in its interface's resolution and cut at its snap length, or reports an unknown interface or a resolution it cannot encode and writes nothing. |
| `PcapngWriter.EncodeOptionsInto` | gnet/pcapng/writer.go:264-279 | The loop over the options appends each code, length, value and padding, and then always the end mark. |
| `PcapngWriter.CapturedLength` | gnet/pcapng/writer.go:217-223 | Data is kept whole if and only if it is within the snap length, where there is one, and 32 bits; longer data is cut exactly there. |
| `PcapngWriter.FirstErrorWins` | gnet/pcapng/writer.go:60-68 | Once a writer option fails, later options do not change the error. |
| `PcapngReader.StepConsumes` | gnet/pcapng/reader.go:56-202 | On arbitrary bytes, a successful block consumes exactly its declared total length, at least 12 and within the input; a step only ever drops a prefix, a failing one leaves the state alone, and no block is read with the byte order unset. |
| `PcapngReader.InputIsNumbered` | gnet/pcapng/reader.go:85-134 | On arbitrary bytes, after any number of blocks from the start of the input: the interfaces of the present section have the ids 0, 1, 2 and so on in order of appearance, from 0 again after 2^32 of them, and the reader knows exactly those ids, each by the last interface block that got it. |
| `PcapngReader.StepNumbers` | gnet/pcapng/reader.go:106-134 | One step keeps that numbering, whatever the bytes: an interface block gets the next id, a section header starts again at none. |
| `PcapngReader.NextPacket` | gnet/pcapng/reader.go:158-186 | Skipping to the next packet terminates, and a packet read leaves strictly less input. |
| `PcapngReader.Reader.NextBlock` | gnet/pcapng/reader.go:56-156 | The reader object takes the step that the byte-level specification takes: same block or error, same new state, same input left. |
| `PcapngReader.Reader.ReadPacket` | gnet/pcapng/reader.go:158-186 | The loop of ReadPacket returns what skipping to the next packet gives. |
| `PcapngReader.Reader.TakeBody` | gnet/pcapng/reader.go:188-202 | A body is read exactly as long as its block says, after lengths below 12 or shorter than the prefix are refused. |
| `PcapngReader.ParseOptionsLoop` | gnet/pcapng/reader.go:329-366 | The loop over a moving reader returns the options up to the end mark, or the error, of the recursive reading. |
| `PcapngBlocks.ParseTimestampResolution` | gnet/pcapng/reader.go:391-417 | The two loops compute the power of ten or of two of a second, with the microsecond for anything out of range. |
| `PcapngFilter.CopyReadsBack` | gnet/pcapng/filter.go:12-67 | Reading the output of a copy that succeeds gives exactly the packets of the input that pass, in order, each cut and stamped as its interface was declared when it was first met, and then end of file, if and only if each fits a block and a 64-bit tick count under that declaration; two packets share an output interface if and only if they shared an input interface. |
| `PcapngFilter.CopySucceedsExactly` | gnet/pcapng/filter.go:28-66 | A copy succeeds if and only if its input reads to the end of file, the machine answers on every packet, and every interface met was declared in nanoseconds or microseconds. |
| `PcapngFilter.CopyIsFaithful` | gnet/pcapng/filter.go:37-65 | A copy that succeeds gives back exactly the passing packets with data and timestamps unchanged if and only if every one fits the snap length, the block size and the resolution of the declaration in force when its interface was first met in the input. |
| `PcapngFilter.LaterSectionIsCut` | gnet/pcapng/filter.go:11-12 | For any two-section input whose second section declares interface 0 with a larger snap length and has a packet longer than the first one: that packet is read whole from the input and comes back cut. |
| `PcapngFilter.KeptIsPassing` | gnet/pcapng/filter.go:37-65 | The packets kept are exactly the passing ones, each written to the interface of its place in the order of first meeting, with the link type, snap length and resolution the input had for it then. |
| `PcapngFilter.OrdinaryCopyIsFaithful` | gnet/pcapng/filter.go:12-67 | On one section of any size with fewer than 2^32 interfaces, with captured lengths within the snap lengths and room in each block for the end-of-options mark, every passing packet reads back with data and timestamp unchanged, and then end of file; its options are dropped and its original length becomes the captured one. |
| `PcapngFilter.CopyKeepsPassing` | gnet/pcapng/filter.go:28-66 | A copy that succeeds has read its input to the end and kept exactly the packets that pass. |
| `PcapngFilter.CopyCarries` | gnet/pcapng/filter.go:25-66 | However a copy ends, its calls declare readable interfaces and write the kept packets in order, and the interface mapping is one-to-one. |
| `PcapngFilter.CarriedReadsBack` | gnet/pcapng/filter.go:25-66 | What it wrote reads back as the kept packets if and only if each can be stored; otherwise the reader stops, or finds another timestamp, at the first that cannot. |
| `PcapngFilter.WrappedPacketFails` | gnet/pcapng/writer.go:227-250 | A packet block whose 32-bit length wraps is an error for the reader, whatever follows. |
| `PcapngFilter.FilterCopy` | gnet/pcapng/filter.go:12-67 | The loop over reader, mapping and writer writes exactly the section header and the calls of the copy, and returns its count or error. |
| `PcapngCopies.CopyIsToldByPackets` | gnet/pcapng/filter.go:28-66 | For any input and machine, the packets of the input alone tell the whole copy: every call on the writer, packet by packet (its interface when it comes up first, with the link type, snap length and resolution declared by then, or Ethernet, 65535 and the microsecond; then the packet, if the machine keeps it, on the interface numbered by how many others came up before), which packets are kept, at which packet it stops, and with which error. |
| `PcapngCopies.MomentsAreRead` | gnet/pcapng/filter.go:28-36 | Those packets are the ones that repeated ReadPacket calls give. |
| `RouteHistory.LookupIsScanOfSurvivors` | ghttp/gserver/method_matcher.go:51-176 | From an empty matcher, after any sequence of additions and removals, each with the outcome it has on a plain list of routes, matching any path finds exactly the route that a linear scan of the surviving routes finds. |
| `RouteMeaning.LookupMeans` | ghttp/gserver/method_matcher.go:80-103 | The same without kinds and shapes, from paths alone: from an empty matcher, after any history, a lookup finds nothing if and only if no surviving route answers the path, being equal to it or, with a segment that starts with ':' or '*', taking its segments one by one; and otherwise it finds the surviving route that comes before all others that answer: equality, then no '*', then at the first different segment a literal before ':' before '*'. |
| `RouteMeaning.SurvivingPatternIsFound` | ghttp/gserver/method_matcher.go:33-103 | A surviving route without empty segments, any segment of which starts with ':' or '*', makes the lookup of every path that its pattern takes succeed. |
| `RouteMeaning.SurvivorsMean` | ghttp/gserver/method_matcher.go:51-176 | A route survives a history if and only if some operation added it and no later one removed what stands in its place. |
| `RouteMeaning.OutcomesMean` | ghttp/gserver/method_matcher.go:51-176 | What every operation of a history reports, from the paths: invalid, duplicate or added; not found, removed, or the nil tree of a length that no parameter route was ever added for. |
| `RouteHistory.HistoryIsRegistry` | ghttp/gserver/method_matcher.go:51-176 | Any history keeps the matcher representing the list of surviving routes, with the same outcome at every operation. |
| `RouteHistory.AddAgrees` | ghttp/gserver/method_matcher.go:51-78 | Adding a route has the effect and the outcome (added, duplicate, invalid path) of adding it to the list, where routes of one kind and shape collide. |
| `RouteHistory.RemoveAgrees` | ghttp/gserver/method_matcher.go:156-176 | Removing a route has the effect and the outcome on the list, the nil tree for a segment count never seen included. |
| `RouteRegistry.MatchIsScan` | ghttp/gserver/method_matcher.go:80-103 | A match finds the exact path first, then the best parameter route of the same length, then the best catch-all, as the linear scan does. |
| `RouteRegistry.OrderDoesNotMatter` | ghttp/gserver/method_matcher.go:80-103 | The scan depends on which routes are registered, not on their order. |
| `RouteRegistry.ScanBestMeaning` | ghttp/gserver/radix.go:212-252 | The scan finds an eligible route that comes before all others, or there is none. |
| `RouteMeaning.ScanMeans` | ghttp/gserver/method_matcher.go:80-103 | The linear scan, said of paths alone: nothing if no route answers, and otherwise the one that comes first. |
| `RouteMeaning.PatternsAnswer` | ghttp/gserver/radix.go:212-252 | A route without empty segments one of which is marked answers exactly the paths whose segments its pattern takes, wherever the mark stands. |
| `RouteMeaning.ParametersMean` | ghttp/gserver/radix.go:225-251 | For a pattern whose names all differ, a name has a value if and only if the pattern gives it: the segment at its place, or all segments from there on, joined by slashes. |
| `RouteTrie.FindIsBest` | ghttp/gserver/radix.go:212-252 | Backtracking finds a stored route that matches if and only if there is one, and then the one that comes first segment by segment: static, parameter, catch-all. |
| `RouteTrie.MatchingAreOrdered` | ghttp/gserver/radix.go:225-251 | Two different patterns that match the same request are ordered, one way only. |
| `RouteTrieLaws.InsertEffect` | ghttp/gserver/radix.go:35-103 | Insertion fails exactly on a position that has a route and then changes no route; otherwise it adds that one and keeps all others and all names. |
| `RouteTrieLaws.RemoveEffect` | ghttp/gserver/radix.go:105-176 | Removal succeeds exactly on a pattern without empty segments whose position has a route, under the catch-all name in the tree; it takes away that route and keeps all others. |
| `RouteTrieLaws.RemoveUndoesInsert` | ghttp/gserver/radix.go:125-176 | Removing the route just inserted gives back the very same trie: nodes, names and entries. |
| `RouteTrieLaws.InsertTidy` | ghttp/gserver/radix.go:35-103 | Insertion leaves no node without both an entry and children. |
| `RouteTrieLaws.RemoveTidy` | ghttp/gserver/radix.go:125-176 | Pruning leaves no node without both an entry and children. |
| `RouteTrieLaws.FailedFindLeavesNothing` | ghttp/gserver/radix.go:236-251 | A failed search only ever takes bindings away, so one started empty leaves none, whatever the names. |
| `RouteTrieLaws.FindBindsRoute` | ghttp/gserver/radix.go:212-252 | With names distinct along every tree path, a failed search leaves the parameters as they were and a successful one adds exactly the bindings of the route found. |
| `RouteReports.LookupReportsExactly` | ghttp/gserver/method_matcher.go:51-176 | From an empty matcher, after any history at all, a match is the linear scan of the survivors; it reports the names that the tree consulted has on the way of the route found, bound to the parts of the request, less those lost to alternatives tried in vain; and these are the route's own parameters if and only if that tree keeps its names: each stands for the same value and is not lost, and every other name on the way is. |
| `RouteReports.MatchReports` | ghttp/gserver/method_matcher.go:80-103 | The same for any matcher that represents a list of routes. |
| `RouteReports.OwnReportedExactly` | ghttp/gserver/radix.go:212-252 | In any tree, what a match reports is the route's own parameters if and only if the tree keeps the route's names for that request. |
| `RouteReports.NamesKeptExactly` | ghttp/gserver/radix.go:66-101 | For a route that uses each name once and a request whose parameters all differ, the names are kept if and only if the tree has the route's name at each of its positions and none of them is lost. |
| `RouteReports.SearchReportsNames` | ghttp/gserver/radix.go:212-252 | What a search that finds a route leaves in the map is those names and values, less those lost. |
| `RouteBindings.LookupReportsOwnParameters` | ghttp/gserver/method_matcher.go:51-176 | A condition on the routes alone that suffices: from an empty matcher, after any history whose routes agree, tree by tree, on the name of each position and whose survivors each use distinct names, a match is the linear scan of the survivors and reports exactly the parameters of the route found, under the names it was registered with. |
| `RouteParams.SearchReports` | ghttp/gserver/radix.go:212-252 | For any tree, whatever its names: a failed search unbinds exactly the names it tried, and a successful one adds the bindings of the route found, less those that alternatives tried first, in vain, took away and the route does not bind again. |
| `RouteParams.AllBoundExactly` | ghttp/gserver/radix.go:212-252 | A search reports all bindings of the route it finds if and only if no name of the route is used by an alternative tried before some node of it, in vain, without being bound again from there on. |
| `RouteParams.AddedRouteGetsItsNames` | ghttp/gserver/radix.go:66-101 | A route just added, with distinct names, gets its own names for every request if and only if each position on its way that was there before has the name it would give. |
| `RouteParams.OwnNamesExactly` | ghttp/gserver/radix.go:66-101 | A stored route with distinct names gets them for every request it matches if and only if the tree has its name at each of its positions. |
| `RouteParams.FirstNameStays` | ghttp/gserver/radix.go:68-79 | Adding a route changes no name in the tree, and gives its own only to the positions that it creates. |
| `RouteParams.InsertKeepsNaming` | ghttp/gserver/radix.go:66-79 | Adding a route that follows the names in use keeps the tree named by them. |
| `RouteParams.RemoveKeepsNaming` | ghttp/gserver/radix.go:125-176 | Removing any route keeps the names in use. |
| `RouteBindings.RepeatedNameIsLost` | ghttp/gserver/radix.go:236-243 | Two routes added to an empty matcher: the request 1/x/2/d, tried on /:a/x/:a/y in vain, matches /:a/:b/:c/d with b and c but without a. |
| `RouteBindings.SecondNameIsNotReported` | ghttp/gserver/radix.go:68-72 | Two routes added to an empty matcher, /:a/x and then /:b/y: the second is matched with the name a. |
| `RouteBindings.TreeIsDistinct` | ghttp/gserver/radix.go:35-103 | Where the routes of a tree agree on names and each uses distinct ones, no name occurs twice on the way to any node. |
| `RouteTree.RadixTree.Insert` | ghttp/gserver/radix.go:35-103 | Insertion into the linked nodes gives the trie and the outcome of the specification and keeps the links and the route count right. |
| `RouteTree.RadixTree.Remove` | ghttp/gserver/radix.go:105-123 | Removal from the linked nodes gives the trie and the outcome of the specification and keeps the links and the route count right. |
| `RouteTree.RadixTree.RemoveNode` | ghttp/gserver/radix.go:125-176 | The recursive removal, pruning empty nodes on the way back, changes the nodes below one position as the specification says. |
| `RouteTree.RadixTree.Find` | ghttp/gserver/radix.go:212-252 | The search on linked nodes, writing and deleting in a shared parameter map, returns the entry and leaves the map that the specification says. |
| `RouteTree.RadixTree.SearchInto` | ghttp/gserver/radix.go:199-210 | Searching into a map of the caller does to that map what the specification says. |
| `RouteMatcher.MethodMatcher.AddRoute` | ghttp/gserver/method_matcher.go:51-78 | The tables and trees after an addition, and its outcome, are those of the specification; every new node is fresh. |
| `RouteMatcher.MethodMatcher.RemoveRoute` | ghttp/gserver/method_matcher.go:156-176 | The tables and trees after a removal, and its outcome, are those of the specification. |
| `RouteMatcher.MethodMatcher.Match` | ghttp/gserver/method_matcher.go:80-103 | Matching on the tables and trees gives the result of the specification. |
| `RouteMatcher.MethodMatcher.MatchInto` | ghttp/gserver/method_matcher.go:105-130 | Matching into a map clears and fills it as the specification says. |
| `RouteMatcher.MatchIntoAgrees` | ghttp/gserver/matcher.go:99-124 | For every path and every prior content of the map, matching into it gives the route and parameters that matching gives, or no route and an empty map. |
| `RouteMatcher.AddKeepsSound` | ghttp/gserver/method_matcher.go:51-78 | No addition leaves a dead node in any tree. |
| `RouteMatcher.RemoveKeepsSound` | ghttp/gserver/method_matcher.go:156-176 | No removal leaves a dead node in any tree. |
| `RoutePaths.PathSegmentCount` | ghttp/gserver/method_matcher.go:132-154 | The index loops count exactly the segments that splitting the path gives. |
| `RoutePaths.CheckPathValid` | ghttp/gserver/util.go:36-71 | The loops refuse a path if and only if it is not valid: a leading slash, named wildcards, one per segment, catch-alls last, no question mark. |
| `RouteMeaning.ValidIsByPieces` | ghttp/gserver/util.go:36-71 | Validity piece by piece: a slash in front, and in every piece between slashes a wildcard only once, with a name behind it, a '*' only in the last piece, and no question mark. |
| `RouteMeaning.SegmentsMean` | ghttp/gserver/matcher.go:91-97 | A path is slashes, its segments joined by slashes, and slashes; no segment has a slash, and the first and last are not empty. |
| `RoutePaths.CatchAllIsLast` | ghttp/gserver/util.go:55-66 | In a valid path only the last segment can start a catch-all. |
| `RoutePaths.JoinSplit` | ghttp/gserver/matcher.go:91-97 | Joining the pieces of a split path gives the path back. |
| `NestedTx.FaithfulExactly` | gsql/tx.go:64-134 | For every callback (nested calls to any depth, commits and rollbacks anywhere, a driver that fails or not), the savepoint strategy gives nested transactions their meaning (a nested call that errors or panics leaves its entry state, one that returns nil keeps exactly its surviving effects, only the outermost level ends the transaction, and then nothing happens any more) if and only if the namer keeps levels apart: neighbouring levels where savepoints stack, all levels where a name is replaced. |
| `NestedHistory.TransactionIsHistory` | gsql/db.go:155-183 | For any callback, driver and names that keep levels apart, under any strategy: the callback has a history, step by step what it ran or asked for and what it got, and the database ends with exactly what the surviving statements make of it in order, those of nested calls that did not succeed left out; reported as begun or not, committed, failed, panicked or failed to commit, with the callback's own first Commit or Rollback deciding where there is one. |
| `NestedHistory.MeaningIsHistory` | gsql/tx.go:64-134 | The invariant behind it, for any callback at any level in any world: every step got what it gets on the state that the survivors before it made. |
| `NestedHistory.HistoryIsOne` | gsql/tx.go:64-134 | There is only one such history. |
| `NestedTx.RunMeans` | gsql/tx.go:64-103 | The invariant behind it: from any stack in which the savepoints above a position belong to the next level, a callback ends with the state it means and the same stack below. |
| `NestedTx.RunNestedMeans` | gsql/tx.go:64-103 | The same for one nested call, with savepoints that failed calls never released still on the stack. |
| `NestedTx.SpoilingProgram` | gsql/tx.go:82-101 | For every namer that does not keep levels apart, a concrete tree of calls, without a commit or rollback, whose failed nested call is not undone. |
| `NestedTx.StaysOpen` | gsql/tx.go:121-134 | No nested callback ends the transaction, and an outermost one does so only by its own Commit or Rollback. |
| `NestedTx.DefaultNamesKeepApart` | gsql/tx.go:48-50 | The default names keep all levels apart. |
| `NestedTx.DefaultNamesAre` | gsql/tx.go:48-50 | A default name is gsql_sp_ and the level in decimal, without zeros in front. |
| `TxObjects.Tx.NestedTxContext` | gsql/tx.go:64-103 | A nested call through a Tx handle, under any strategy, drives the session as specified: savepoint, callback, rollback on error or panic, release. |
| `NestedTx.NestingSucceeds` | gsql/tx.go:71-80 | Some nested call succeeds, from any level and session, if and only if the strategy is reuse, or the transaction is open and the strategy is savepoints or follows a dialect that has them; otherwise every one fails and touches nothing. |
| `NestedTx.FailureIsUndone` | gsql/tx.go:71-103 | Nested calls that do not succeed leave no trace, whatever they run, if and only if the strategy is not reuse. |
| `TxObjects.Tx.Callback` | gsql/tx.go:64-134 | A callback given a handle of any level, on an open or ended transaction, runs as specified. |
| `TxObjects.Tx.Commit` | gsql/tx.go:121-126 | Commit on a nested handle is refused and changes nothing; on the outermost one it ends the transaction, keeping its state if the driver commits; a second time it is an error. |
| `TxObjects.Tx.Rollback` | gsql/tx.go:129-134 | Rollback on a nested handle is refused and changes nothing; on the outermost one it ends the transaction, keeping nothing; a second time it is an error. |
| `TxObjects.DB.TxContext` | gsql/db.go:155-183 | For any callback and driver, with the default names or any chosen ones, a transaction ends committed, or failed to begin, by its callback, by a panic or at commit, and the database is left as specified; with names that keep levels apart, as its callback means. |
| `TxObjects.TxRunMeans` | gsql/db.go:155-183 | With such names, running the callback on savepoints commits what it means. |
| `TxObjects.TxMeaning` | gsql/db.go:155-183 | It reports a commit if and only if it began, its callback meant success and left it open, and the commit went through; otherwise the database changes only by a commit of the callback itself. |
| `TxObjects.AllOrNothing` | gsql/db.go:155-183 | If its callback leaves it open, a transaction that does not report a commit changes nothing. |
| `TxObjects.OwnCommitIsNotReported` | gsql/db.go:166-178 | A callback that commits by itself is reported as failed or panicked, whatever else it does, and the database holds what it committed. |
| `TxObjects.OwnCommitFails` | gsql/db.go:166-178 | Concretely: set the state, commit, return nil; the report is a failed commit. |
| `TxObjects.Connection.ExecRollbackTo` | gsql/tx.go:110-113 | Rolling back to a name restores the latest snapshot of that name and keeps that savepoint; without it, an error and no change. |
| `TxObjects.Connection.ExecRelease` | gsql/tx.go:115-118 | Releasing a name drops its latest savepoint and everything above, and keeps the state; without it, an error and no change. |
| `Migrate.RunIsSound` | gsql/migrate.go:85-133 | A run, being its callback in a transaction, succeeds if and only if collecting, beginning, every pending up function and the commit do, no up function ends the transaction, and pending ids are distinct; it has then applied the pending migrations in strictly ascending id order and recorded them. Otherwise, an up function that panics included, data and record are unchanged if the up functions leave the transaction open; with distinct ids, whatever they do, the data is as the first own commit of an up function left it, with the migrations before that one recorded, or unchanged. |
| `Migrate.RunEnds` | gsql/migrate.go:85-133 | Which of the six ends a run has, case by case, when pending ids are distinct. |
| `Migrate.AppliedInTurn` | gsql/migrate.go:104-125 | Applying migrations is calling their up functions in turn, each on what the one before has left, up to the first that is missing, does not succeed, or ends the transaction. |
| `Migrate.EachKeptOnce` | gsql/migrate.go:85-133 | Over any sequence of successful, failing and panicking runs whose up functions leave the transaction open, each migration is kept at most once and the data is the kept migrations applied in the order recorded. |
| `Migrate.SelfCommitIsRepeated` | gsql/migrate.go:118-123 | From any store, a run of a migration whose up function changes the data and commits fails, keeps the change and records nothing, so that every further run does it again. |
| `Migrate.RepeatAppliesNothing` | gsql/migrate.go:103-107 | Repeating a successful run applies nothing and succeeds. |
| `Migrate.LoopAppliesPending` | gsql/migrate.go:104-125 | The loop succeeds if and only if every pending up function does, leaving the transaction open, and the pending ids are distinct, and then applies and records them in order; with distinct ids it ends as the up functions end, with exactly those recorded that came before the end. |
| `Migrate.Migrator.Run` | gsql/migrate.go:85-133 | The run object gives its callback to TxContext and leaves the database as that means, whether it commits, fails or panics. |
| `Migrate.ApplyMigrations` | gsql/migrate.go:95-132 | The loop on a transaction handle, up functions with nested transactions included, is that callback, and counts the pending migrations when it succeeds. |
| `Migrate.LessIsTotal` | gsql/migrate.go:91-93 | The byte-wise order on ids is total, so sorted ids are ascending. |
| `Migrate.LessMeans` | gsql/migrate.go:91-93 | One id is less than another if and only if it is smaller at the first place where they differ, or is the beginning of the other. |
| `LfuCache.CountersMean` | gcache/lfu.go:40-106 | Over any run, for every key held: its value is the last one set, its time that of the last call naming it, its count the number of calls naming it since it was admitted. |
| `LfuCache.FoundIsLastSet` | gcache/lfu.go:40-49 | Over any run, a Get finds the last value set for its key if the key is held, and otherwise nothing. |
| `LfuCache.KeysMean` | gcache/lfu.go:52-124 | Over any run, what one call does to the keys held, from the calls alone: only a Set of a new key changes them; where as many as the capacity are held, the one goes that was named least often since it came in and, of those, longest ago. |
| `LfuCache.CountIsCallsSince` | gcache/lfu.go:85-106 | The count of a key is the number of calls that named it since it came in. |
| `LfuCache.CallsKeepForm` | gcache/lfu.go:40-77 | Every call keeps the size within capacity and the times of last use distinct. |
| `LfuCache.VictimExists` | gcache/lfu.go:109-124 | There is always a key with the least count and, among those, the oldest use. |
| `LfuCache.SetIsDetermined` | gcache/lfu.go:52-77 | A call to Set has one possible result: the key to give up is unique. |
| `LfuLists.LastIsVictim` | gcache/lfu.go:110-116 | The last element of the list of minFreq is the key used least often and, of those, longest ago. |
| `LfuLists.UseKeepsFiled` | gcache/lfu.go:85-106 | A use keeps the lists a partition of the cached keys by count, each in order of last use. |
| `LfuLists.UseKeepsLeast` | gcache/lfu.go:93-96 | After a use minFreq is again the least count with a nonempty list, also when its list ran empty. |
| `LfuLists.GivingUpKeepsFiled` | gcache/lfu.go:121-123 | Giving up the last element keeps the lists a partition of the keys that are left. |
| `LfuLists.AdmissionKeepsFiled` | gcache/lfu.go:69-75 | Admission keeps the lists a partition, the new key in front of the list of count 1. |
| `LfuLists.AdmissionIsLeast` | gcache/lfu.go:76 | After an admission 1 is the least count in use. |
| `LfuLists.LeastIsInUse` | gcache/lfu.go:110 | minFreq is the count of some cached key and of none less. |
| `LfuCacheObjects.LFUCache.Get` | gcache/lfu.go:40-49 | Table, lists and entries after Get are those of the specified cache, with the value found; minFreq's list is nonempty and minimal whenever the cache is not empty. |
| `LfuCacheObjects.LFUCache.Set` | gcache/lfu.go:52-77 | The same for Set, with the specified victim given up exactly when a new key meets a full cache. |
| `LfuCacheObjects.LFUCache.IncrementFrequency` | gcache/lfu.go:85-106 | Moves the entry to the next list as an element of its own, repairs minFreq, and leaves every other entry. |
| `LfuCacheObjects.LFUCache.Evict` | gcache/lfu.go:109-124 | Gives up exactly the victim of the specification, or nothing when the cache is empty. |
| `LfuCacheObjects.LFUCache.Len` | gcache/lfu.go:80-82 | The number of keys held. |
| `LfuCacheObjects.Replay` | gcache/lfu.go:26-124 | A cache made and driven by any list of calls runs through states of the specification; its i-th Get finds the last value set before it for the key if the key is held, and otherwise nothing. |
| `LruCache.LargerCacheHitsMore` | gcache/lru.go:37-69 | The inclusion property: over any history, with capacities c <= c', the smaller recency list is a subsequence of the larger with equal values, and every hit in the small cache is the same hit in the large one. |
| `LruCache.GetKeepsIncluded` | gcache/lru.go:37-43 | Any read keeps the smaller cache included in the larger, and its hit is the larger one's hit. |
| `LruCache.SetKeepsIncluded` | gcache/lru.go:48-69 | Any write keeps the smaller cache included in the larger. |
| `LruCache.FreshCachesAreIncluded` | gcache/lru.go:24-33 | New caches start included, capacities that are not positive counting as 1. |
| `LruCache.StepsKeepForm` | gcache/lru.go:37-69 | Keys stay distinct and the capacity is never exceeded. |
| `LruCache.LRUCache.Get` | gcache/lru.go:37-43 | List and table after Get are those of the specified cache, with the value found. |
| `LruCache.LRUCache.Set` | gcache/lru.go:48-69 | List and table after Set are those of the specified cache: updated in front, or put in front of a full list less its last. |
| `LruCache.LRUCache.Len` | gcache/lru.go:72-74 | The number of entries held. |
| `LruHistory.RecencyMeans` | gcache/lru.go:37-69 | After any history on a new cache, from the list of calls alone: the entries hold the last values set and stand in strictly descending order of last use (a Set, or a Get that hit), and a key is held if and only if it was set and fewer than capacity other keys were used after its last use. |
| `LruHistory.RunAnswers` | gcache/lru.go:37-69 | Every Get finds the last value set for its key if the key is held then, and otherwise nothing, as told by the calls alone. |
| `LruHistory.Replay` | gcache/lru.go:24-69 | A cache made with any capacity and driven by any list of calls finds exactly that. |
| `SqlPlaceholders.NumberedClauseReadsBack` | gsql/builder.go:423-475 | With numbered placeholders and no subqueries, reading the rendered WHERE clause gives the conditions with the n-th hole naming the n-th returned value if and only if no slice has two or more elements and no digit follows a dollar sign or the hole of a single value. |
| `SqlPlaceholders.SliceSkipsANumber` | gsql/builder.go:460-465 | Concretely: a slice of two is written ($1, $3) with two values, as the index grows by the loop and by the values already appended. |
| `SqlPlaceholders.MarksCountUp` | gsql/dialect.go:87 | The placeholders meant, left to right, are 1 to the number of returned values. |
| `SqlPlaceholders.QuestionClauseReadsBack` | gsql/builder.go:423-475 | With question marks, any subqueries included, every argument is in the place of its own hole if and only if within each condition only single values follow an argument that leaves a question mark. |
| `SqlPlaceholders.ListLandsOnValue` | gsql/builder.go:449-468 | A value and then a list in one condition always comes out wrong. |
| `SqlPlaceholders.PlaceholderSQL` | gsql/dialect.go:74-86 | The loop turns the n-th question mark of a statement into $n and leaves the rest. |
| `SqlStatements.StatementCarriesExactly` | gsql/builder.go:235-475 | What a whole statement with question marks says once the k-th value stands for the k-th mark: exactly what the builder means (clauses in their order, the k-th column of an INSERT or UPDATE with its value, every hole of a condition with its own argument, subqueries in place) if and only if in each condition only single values follow an argument with a value in it, given that no other text has a question mark and the subqueries say what they mean. |
| `SqlStatements.StatementCarries` | gsql/builder.go:156-173 | So a builder whose texts have no question marks and whose arguments come in order, in its subqueries too, is rendered to what it means. |
| `SqlStatements.RenderedUnlessComplaint` | gsql/builder.go:156-475 | A builder fails if and only if something is wrong with it, and with the first thing: no table, no values, no condition on an UPDATE or DELETE, a missing argument, or the same in a subquery. |
| `SqlNumbered.NumberedInsertCarries` | gsql/builder.go:297-325 | A numbered INSERT is read with its k-th column in the place of $k, and says what the builder means, if and only if table and columns hold no number of their own. |
| `SqlNumbered.NumberedSelectCarries` | gsql/builder.go:235-295 | The same for a numbered SELECT with a condition: if and only if moreover no slice of its conditions has two or more elements and no digit follows a dollar sign or a single hole in them. |
| `SqlNumbered.NumberedDeleteCarries` | gsql/builder.go:365-384 | The same for a numbered DELETE. |
| `SqlNumbered.NumberedUpdateReads` | gsql/builder.go:327-363 | A numbered UPDATE is read as $1, $2 and so on for its columns and again from $1 on in its conditions. |
| `SqlNumbered.NumberedUpdateCarriesExactly` | gsql/builder.go:341-361 | So it says what the builder means if and only if the values of its first columns happen to be those of its conditions, one by one. |
| `SqlHoles.InTurnIsInPlace` | gsql/builder.go:449-467 | Replacing the first question mark over and over puts every text in its own hole if and only if no text with a question mark is followed by anything but a bare one. |
| `SqlHoles.FillCounts` | gsql/builder.go:442-470 | Filling in turn loses no replacement: holes and length add up. |
| `SqlMeaning.LexSpell` | gsql/dialect.go:87 | Reading numbered text gives back the pieces it was spelled from if and only if no digit touches a placeholder or dollar sign. |
| `SqlCounting.MarksMatchValues` | gsql/builder.go:235-475 | With question-mark dialects, for any nesting of builders, slices and empty slices, a rendered SELECT, INSERT, UPDATE or DELETE has exactly as many question marks as returned values plus those in clauses that take no arguments (HAVING included). |
| `SqlBuilder.BuildWhereClause` | gsql/builder.go:423-475 | The nested loops with offset, arguments and rewritten parts return the clause and values, or the error, of the specification. |
| `SqlBuilder.WriteSlice` | gsql/builder.go:460-465 | The loop over a slice writes the placeholders it writes, every other number skipped, and collects the values in order. |
| `SqlBuilder.ToSQL` | gsql/builder.go:156-173 | Rendering, subqueries in builders inside included, terminates with the statement and values, or the error, of the specification. |
| `SqlBuilder.BuildInsertSQL` | gsql/builder.go:297-325 | The loop writes one placeholder for each column and collects the values in order. |
| `SqlBuilder.BuildUpdateSQL` | gsql/builder.go:327-363 | The loop writes one assignment for each column; an update without a condition is refused. |
| `SchemaDocument.DocumentKeepsEveryDeclaration` | gws/internal/wsdl/parser.go:70-78 | For any document and import graph: loading succeeds if and only if everything its schema elements lead to can be loaded, and the merged result is then one schema for each namespace, in order of first appearance, that holds exactly the declarations made in that namespace by every schema element and every reachable file, each taken once, in order; before each element stand just the elements before it and the files they lead to. |
| `SchemaDocument.DocumentSchemas` | gws/internal/wsdl/parser.go:70-78 | A new parser, its loop over the schema elements and the merging loop give that result, or fail exactly then. |
| `SchemaLoading.TypesFollowEveryLinkOnce` | gws/internal/wsdl/parser.go:103-194 | Parsing the schemas of a document terminates for any import graph, succeeds if and only if everything they lead to can be loaded, and then loads every file they lead to, and no other, exactly once; it gives, element by element, its own schema and one for each file that it leads to and none before it does. |
| `SchemaLoading.LoadingFollowsEveryLinkOnce` | gws/internal/wsdl/parser.go:127-194 | The same for one schema element, with the result: its own schema and then one for every reachable file, in the order of loading. |
| `SchemaLoading.ChildrenComplete` | gws/internal/wsdl/loader.go:50-60 | A load that succeeds has followed every link, visiting no file twice. |
| `SchemaLoading.ChildrenReach` | gws/internal/wsdl/parser.go:157-168 | Nothing is loaded that is not linked to, and a load fails only where something linked to is bad. |
| `SchemaLoading.ChildrenSchemas` | gws/internal/wsdl/parser.go:171-173 | The result is the element's schema, what came before, and one schema for every file loaded. |
| `SchemaErrors.ErrorsAreFaults` | gws/internal/wsdl/parser.go:127-194 | A document whose schemas do not load leads to a fault of the very kind reported: a declaration that does not parse, a link off this machine, a path that cannot be read, a file that is no XML, or one that is no schema. |
| `SchemaLoading.LocalLoader.Load` | gws/internal/wsdl/loader.go:25-61 | A path is read at most once; an unreadable one is an error and is not marked visited. |
| `SchemaLoading.SchemaParser.ParseNode` | gws/internal/wsdl/parser.go:127-174 | The loop over the children, sharing one loader, returns the schemas or the error of the specification. |
| `SchemaLoading.SchemaParser.ParseImported` | gws/internal/wsdl/parser.go:176-194 | Loading a location returns the schemas, nothing for a visited file, or the error of the specification. |
| `SchemaLoading.SchemaParser.ParseTypesOf` | gws/internal/wsdl/parser.go:103-125 | The loop over the schema elements of a document returns their schemas or the first error. |
| `SchemaMerging.MergeKeepsEverything` | gws/internal/wsdl/parser.go:733-751 | Merging gives one schema for each namespace in order of first appearance, and loses, repeats or moves no declaration within a namespace. |
| `SchemaMerging.MergeSchemasByTargetNamespace` | gws/internal/wsdl/parser.go:733-751 | The loop with an index by namespace computes that merge. |
| `XmlTree.TreeReadsBack` | gws/internal/wsdl/parser.go:533-582 | The tree built from a document, with whatever stands before, in and after its root element, read back in document order, is the stream of its element events. |
| `XmlMeaning.TreeMeans` | gws/internal/wsdl/parser.go:533-582 | For any stream of tokens: the elements in the order of their starts, each in the last one to have started one level further out, and as root the last one that started in none. |
| `XmlMeaning.ElementsMean` | gws/internal/wsdl/parser.go:546-575 | The element events of a stream are its starts and ends in order, and nothing else. |
| `XmlTree.OthersLeaveNoTrace` | gws/internal/wsdl/parser.go:533-582 | Tokens that are no element events change nothing in the tree. |
| `XmlTree.ScopeIsInnermost` | gws/internal/wsdl/parser.go:555-560 | A prefix at a node stands for the innermost declaration around it (section 6.1 of Namespaces in XML 1.0). |
| `XmlMeaning.NamespacesMean` | gws/internal/wsdl/parser.go:549-593 | From the attributes alone, for any prefix: it is bound at an element if and only if an attribute xmlns:prefix, or xmlns for the empty one, stands there or around it, and then to the last such attribute of the innermost element that has one. |
| `XmlTree.NamesResolveInnermost` | gws/internal/wsdl/parser.go:603-643 | A prefixed name resolves to the innermost declaration of its prefix and fails if and only if there is none; one without a prefix to the innermost default namespace, or the fallback. |
| `XmlMeaning.TrimSpaceMeans` | gws/internal/wsdl/parser.go:603-618 | Trimming takes off the white space in front and behind, all there is, and nothing else. |
| `XmlTree.ParseXmlNode` | gws/internal/wsdl/parser.go:533-582 | The loop over the stack makes one node for every element, with its name, attributes, namespaces in force and children in order, and returns the root. |
| `XmlTree.AddNode` | gws/internal/wsdl/parser.go:549-568 | A start makes a fresh node in the node on top of the stack and leaves every other node. |
| `XmlTree.ApplyNamespaceDecl` | gws/internal/wsdl/parser.go:584-593 | The loop applies the declarations in order, the last of a prefix winning. |
| `XmlTree.StartReads` | gws/internal/wsdl/parser.go:549-568 | Reading a start adds exactly that to what the open elements have read. |
| `XmlTree.EndReads` | gws/internal/wsdl/parser.go:569-574 | Reading an end adds exactly that and finishes the innermost open element. |
| `Middleware.ServingIsOrderly` | ghttp/gserver/context.go:79-105 | For every set of handlers that call Next any number of times, Abort anywhere and branch on IsAborted: they start in index order, a contiguous prefix, each once, with well-nested starts and finishes, none after an abort, and all that are not nil if nobody aborts. |
| `MiddlewareHistory.ChainIsTold` | ghttp/gserver/context.go:79-105 | Any call of Next on any chain, told by its handlers: each did a way through its body; its first Next, unless it has aborted, ran the rest of the chain inside it, and every later one nothing; the chain looked aborted to it exactly after an abort or a Next; without either the chain went on behind it. |
| `MiddlewareHistory.ChainIsOne` | ghttp/gserver/context.go:79-105 | There is only one such telling. |
| `Middleware.LoopOrderly` | ghttp/gserver/context.go:79-87 | The same for any call of Next from any index. |
| `Middleware.LiveIncreases` | ghttp/gserver/context.go:82-84 | The handlers started are strictly increasing, so none starts twice, and are exactly those that are not nil. |
| `Middleware.Context.Next` | ghttp/gserver/context.go:79-87 | The re-entrant loop over the shared index does what the specification does, terminates, and always leaves the context looking aborted. |
| `Middleware.Context.RunHandler` | ghttp/gserver/context.go:82-84 | A handler that calls back into the context brings the index and the events where the specification says. |
| `Middleware.Context.Reset` | ghttp/gserver/context.go:48-59 | A context taken up again has no handlers, the index before the first, and no events. |
| `Middleware.Context.Abort` | ghttp/gserver/context.go:89-91 | Abort sets the index to the number of handlers and starts nothing. |
| `LoadBalancing.ExactShare` | glb/strategy.go:83-115 | With non-negative weights summing to W > 0, in any W consecutive calls from any counter each instance is chosen exactly its weight many times. |
| `LoadBalancing.CallsGoRound` | glb/strategy.go:83-115 | Which instance the k-th of some calls in a row chooses: the one whose weight, the weights laid end to end in the order of the list, holds the k-th number from the counter on, round after round. |
| `LoadBalancing.PickIsFirst` | glb/strategy.go:105-111 | Chosen is the first place at which the weights so far outweigh the counter, whatever the weights. |
| `LoadBalancing.PickIsNoneExactly` | glb/strategy.go:105-111 | Nothing is chosen if and only if no stretch of the list from its start outweighs the counter. |
| `LoadBalancing.PositiveTotalPicks` | glb/strategy.go:93-111 | With a positive total some instance is chosen, whatever the weights and whatever lists moved the counter before. |
| `LoadBalancing.UnitWeightsGoRound` | glb/strategy.go:49-115 | With unit weights the weighted strategy chooses exactly as plain round robin. |
| `LoadBalancing.EachOnce` | glb/strategy.go:49-65 | In as many calls as there are instances plain round robin chooses every one once. |
| `LoadBalancing.TurnsGoRound` | glb/strategy.go:49-65 | The k-th of some calls in a row chooses the place k further than the counter, modulo the length. |
| `LoadBalancing.WeightedRoundRobinStrategy.Next` | glb/strategy.go:83-115 | The summing and subtracting loops choose the specified instance and move only the counter of the list's first address. |
| `LoadBalancing.Rounds` | glb/strategy.go:49-65 | Calls of the plain strategy object in a row take turns, and in as many as there are instances, from any counter, every instance is chosen exactly once. |
| `LoadBalancing.Calls` | glb/strategy.go:83-115 | Consecutive calls on the strategy object choose what the specification of a run says. |
| `CurlCommand.CommandReadsBack` | ghttp/gclient/curl.go:30-65 | For any headers, cookies, body and URL, and a method of characters the shell leaves alone, the POSIX shell splits the printed command into exactly the argument list it was built from. |
| `CurlCommand.ArgumentsTell` | ghttp/gclient/curl.go:30-94 | What the argument list tells curl, from the request alone: the method, one line for every value of every header, its key in front, in order, then the cookies, the body without the newlines at its end unless it is empty, and the URL. |
| `CurlCommand.QuoteReadsBack` | ghttp/gclient/curl.go:96-104 | For any text, quotes and newlines included, the shell reads its quoted form as one word with that text. |
| `CurlCommand.MethodsReadBackExactly` | ghttp/gclient/curl.go:36-37 | Every request with a method is read back as its arguments if and only if the method is not empty and made of characters the shell leaves alone where they stand. |
| `CurlCommand.BuildCurlCmd` | ghttp/gclient/curl.go:30-65 | The builder writes the method and then every option and word, each quoted, in order. |
| `CurlCommand.DumpCurlHeaders` | ghttp/gclient/curl.go:67-80 | The nested loops list every value of every key, in order. |

## Left out

- Writers that fail, `WithBuffer` and `Close`: the output of the pcapng writer is a sequence of bytes that grows.
- The clock: the current time is a parameter of WritePacket, used for the zero time only.
- The BPF machine: an arbitrary function from packet bytes to keep, drop or error.
- Memory: `make([]byte, totalLength)` is not bounded in the model, and a Go int is an unbounded integer where it counts routes, handlers, cache uses, placeholders or calls.
- The per-method table of the router, statistics, full paths in results, and the difference between a nil and an empty parameter map.
- RouteHistory.LookupIsScanOfSurvivors: says which route is found; what is reported with it is RouteReports.LookupReportsExactly, and likewise for RouteRegistry.MatchIsScan.
- RouteBindings.LookupReportsOwnParameters: a sufficient condition on the routes; the exact one, on the tree consulted, is RouteReports.LookupReportsExactly.
- Locks, and the thread-safe cache wrappers: the objects are sequential.
- Statements SAVEPOINT, RELEASE and ROLLBACK TO that fail for any other reason than a missing name, read-only and isolation options.
- NestedTx.FaithfulExactly: callbacks use only the Tx they are given, not one of an outer level that they have captured.
- Migrate.EachKeptOnce: up functions that leave the transaction open; SelfCommitIsRepeated shows that this is needed.
- Migrate.Migrator.Run: statements of the recorder that fail in the driver for any other reason than a repeated key, and databases whose DDL is not transactional; the unstable sort is any sorted permutation; applied_at times and the default recorder, which reports nothing applied, are not modelled.
- container/list: a list is the sequence of its elements, each an object of its own.
- LfuCache: the time of last use is the number of calls so far, which the code keeps only as the order of its lists.
- How a builder gets its columns and values from a struct or map, the chained setters, a builder that contains itself, ToRawSQL and COUNT statements.
- SqlBuilder.BuildWhereClause: fewer arguments than holes is one failure, where the code panics or reads stale elements of a slice with spare capacity.
- SqlPlaceholders.NumberedClauseReadsBack: no subqueries, since a subquery starts again at $1; whole statements are in SqlNumbered. Quoted text is not treated apart, as in the code.
- SchemaLoading.LocalLoader.Load: include and import targets are given as absolute paths, so joining, cleaning and classifying them is not modelled; messages, bindings, services and the inside of declarations are not parsed.
- The XML tokenizer: the token stream is the input. Malformed documents end there.
- The rest of Context, and handlers that do not terminate; what else a handler branches on only decides which of its actions it takes, the one time it runs.
- The random and least-connections strategies, and the strategies' mutexes.
- Sorting of header keys and their canonical form: the headers come as a list in key order. Cookies are printed twice, once among the headers and once on their own, as in the code.
- CurlCommand.CommandReadsBack: assumes a method the shell leaves alone, as MethodsReadBackExactly shows it must. The body is the body without its trailing newlines, as the code prints it.
