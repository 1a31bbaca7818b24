# CauseNet core in Dafny

CauseNet stores a network of causal relations between concepts in a
write-once binary file. The file is built by a writer and then queried by a
reader that works on the memory-mapped bytes. This project models:

- **The binary layout** (module `CausenetFile`, on top of `LittleEndian`). It has
  - a 32-byte header of four little-endian u64 values: the node count and three section offsets;
  - a fixed-stride array of 16-byte node entries;
  - the node-info region: each node's NUL-terminated name, its 16-byte edge entries closed by
    the `nulledge` sentinel, and its lists of u64 support offsets;
  - the support region: deduplicated records, each a type byte, a NUL-terminated id and a
    NUL-terminated content.

  The file is a `seq` of bytes (`Byte = 0..255`), and every field read is a function of that
  sequence.
- **The writer** `CausenetWriter` (module `Writer`, with the images of its output in
  `CausenetLayout`). It is a class whose fields are the two dedup tables, the node list, the
  three staging streams and the output file. Each stream is a byte sequence that only grows at
  the end, so `tellp()` is its length. Each method is proved equal to a step function on a
  value-level `WriterState`. The writer's invariant `Inv` is proved for every step:
  - the interning is a bijection between names and node indices;
  - each known support's offset points at its record, and no two supports share an offset;
  - the effects are sorted;
  - the ghost edge log agrees with the offsets.
- **The reader** `Causenet` (module `CausenetReader`). Its queries are stated on any byte
  sequence that is `WellFormed`. The round trip (module `CausenetRoundTrip`) proves that the
  file the writer produces is well formed, and that every query on it gives back what was
  written. For example, `getSupport(c, e)` returns exactly the supports passed to `writeEdge`
  for (c, e), in call order.
- **`jsonlToBinary`** (module `JsonlIngest`). It maps each source's `"type"` string to its
  source type, builds one support per source, and makes one `writeEdge` call per line.
- **The graph utilities** of `include/utils/shortest_paths.hpp` (modules `Graphs`,
  `ShortestPaths`, `Components`, `Counting`). They run over a neighbour function
  `nat -> seq<(nat, int)>`.
- **The WARC header helpers** of `include/warc.hpp` (module `Warc`): `onlyWhitespace`, `trim`,
  `split`, and the header block of `operator>>` as a method of the class `WarcRecord`.

Some behaviours of the code worth knowing before reading the model:

- **shortestPath is a first-discovery search.** A node keeps the predecessor it was first
  discovered from (shortest_paths.hpp:34-37). So for A→B (1), B→C (1), A→C (5) the result is
  [A, C], the path through the first discovery of C. This is the lemma
  `ShortestPaths.FirstDiscoveryWins`.
- **shortestPath stops with the target on top of the queue** (line 31), before expanding it.
- **An empty concept name is not rejected** by `writeEdge`. It is interned like any other name.
- **The offsets are 64-bit.** The structs at causenet_file.hpp:10-55 use 64-bit offsets
  (the comment diagram at causenet.cpp:102-164 draws uint32 fields). The model follows the
  structs.

## Model

| member | source | states |
|---|---|---|
| CausenetSupport.SourceTypeByte | include/causenet/support.hpp:8 | the four source types are stored as one byte, 0..3 in declaration order |
| CausenetSupport.SourceTypeOfByte | include/causenet/support.hpp:8 | a stored type byte decodes exactly when it is below 4, and decodes to the type whose byte it is |
| CausenetSupport.SourceTypeByteRoundTrip | include/causenet/support.hpp:8 | decoding the byte of a source type gives back that type |
| CausenetSupport.SupportEquals | include/causenet/support.hpp:15-17 | Support::operator== holds iff the type, the id and the content are all equal |
| CausenetSupport.SupportEqualsIsEquivalence | include/causenet/support.hpp:15-17 | operator== is reflexive, symmetric and transitive, so it is a valid dedup key |
| LittleEndian.DecodeEncode | src/causenet/causenet_file.hpp:10-14 | reading back n little-endian bytes gives the value modulo 256^n (the truncating casts) |
| LittleEndian.EncodeDecode | src/causenet/causenet_file.hpp:10-14 | encoding a decoded field gives back the same bytes |
| LittleEndian.CString | src/causenet/causenet.cpp:175-195 | turning a GetString() pointer into a std::string keeps the longest NUL-free prefix: the result is a prefix, holds no NUL, is followed by a NUL when shorter than the input, and is the whole input when that holds no NUL |
| LittleEndian.ReadCString | src/causenet/causenet_file.hpp:34-36 | std::string(data) at a NUL-terminated string without inner NULs reads exactly that string |
| LittleEndian.CStringAtTerminated | src/causenet/causenet_file.hpp:34-36 | a string read at a position holds no NUL and is followed there by a NUL |
| CausenetFile.ReadHeader | src/causenet/causenet_file.hpp:10-20 | the 32-byte header (four u64) decodes back to the header written |
| CausenetFile.ReadNodeEntry | src/causenet/causenet_file.hpp:46-55 | a 16-byte node entry (two u64 offsets) decodes back to the entry written |
| CausenetFile.ReadEdge | src/causenet/causenet_file.hpp:22-26 | an edge entry reads back with its target and count truncated to u32 and its offset to u64 |
| CausenetFile.ReadFittingEdge | src/causenet/causenet_file.hpp:22-42 | an edge entry whose fields fit reads back exactly |
| CausenetFile.SentinelEncoding | src/causenet/causenet_file.hpp:44 | nulledge is encoded as the target 0xFFFFFFFF followed by zeros |
| CausenetFile.ReadSentinel | src/causenet/causenet_file.hpp:44 | those 16 bytes read back as nulledge |
| CausenetFile.ReadSupport | src/causenet/causenet_file.hpp:31-37 | a support record (type byte, id and NUL, content and NUL) decodes back to the support when neither id nor content holds a NUL |
| CausenetFile.NulInIdTruncates | src/causenet/causenet_file.hpp:34-36 | an id with an embedded NUL is cut at the NUL, and what follows is read as the content |
| CausenetFile.SupportRecordsOf | src/causenet/causenet_file.hpp:27-39 | EdgeEntry::support yields numSupport records; record j is the one at supportBase + base[j], where base is the u64 list at nodeInfoBase + supportOffset |
| CausenetFile.EdgeSupports | src/causenet/causenet_file.hpp:27-39 | the loop collects exactly those records, in order |
| CausenetReader.EdgesFromSpec | src/causenet/causenet.cpp:79-82 | the edges read from a position are the entries before the first sentinel, none of them a sentinel |
| CausenetReader.EffectEdgesLayout | src/causenet/causenet_file.hpp:51-53 | a concept's edges start at nodeInfoBase + effectOffset and end at the first sentinel inside the file |
| CausenetReader.NumConcepts | src/causenet/causenet.cpp:78 | numConcepts is the header's node count, the little-endian u64 in the file's first eight bytes, below 2^64; on the written file it is the number of concepts (ImageWellFormed) and getConcepts yields that many names |
| CausenetReader.ConceptByIdx | src/causenet/causenet.cpp:73 | getConceptByIdx(i) is the NUL-free string followed by a NUL at nodeInfoBase + nameOffset of node entry i |
| CausenetReader.GetConceptIdx | src/causenet/causenet.cpp:67-72 | the result is the smallest index whose name equals the given one, and size_t(-1) exactly when no concept has that name |
| CausenetReader.GetConcepts | src/causenet/causenet.cpp:74-77 | the names are numNodes many, in index order, the i-th being getConceptByIdx(i) |
| CausenetReader.GetEffects | src/causenet/causenet.cpp:79-82 | the effects are (targetIdx, numSupport) of each edge entry up to, not including, the first sentinel |
| CausenetReader.NumEffects | src/causenet/causenet.cpp:83-88 | numEffects(c) is the number of effects getEffects(c) yields |
| CausenetReader.FirstEdgeTo | src/causenet/causenet.cpp:90-91 | the first edge whose target is the effect, and None exactly when no edge has that target |
| CausenetReader.SupportBetweenFirst | src/causenet/causenet.cpp:89-100 | the supports between two concepts are the decoded records of the first edge to the effect |
| CausenetReader.GetSupport | src/causenet/causenet.cpp:89-100 | getSupport returns the numSupport decoded supports of the first edge to the effect, and an empty vector when there is none |
| CausenetLayout.LowerBound | src/causenet/causenet_writer.hpp:17 | std::map::lower_bound: every key before the position is smaller and every key from it on is not |
| CausenetLayout.GetLowerBound | src/causenet/causenet_writer.hpp:17-18 | a key is in the sorted map iff the entry at its lower bound has that key |
| CausenetLayout.OrderedInsertOrGet | src/causenet/causenet_writer.hpp:15-24 | std::map insertOrGet: a present key returns its value and false, leaving the map unchanged; an absent key is inserted with newVal, returned with true; the map stays sorted and other keys keep their values |
| CausenetLayout.InsertOrGet | src/causenet/causenet_writer.hpp:26-30 | std::unordered_map insertOrGet: the flag is true iff the key was absent; the map gains the key and keeps every existing value; a new key gets newVal |
| CausenetLayout.Put | src/causenet/causenet_writer.hpp:153-155 | updating a present key's value keeps the key order and every other key's value |
| CausenetLayout.EdgesImageAt | src/causenet/causenet_writer.hpp:69-77 | edge k of a node is written at byte 16k of its edge array |
| CausenetLayout.OffsetsImageAt | src/causenet/causenet_writer.hpp:82-83 | offset j of a support list is written as a u64 at byte 8j of the list |
| CausenetLayout.AllOffsetsImageAt | src/causenet/causenet_writer.hpp:81-84 | edge k's offset list follows the lists of the edges before it |
| CausenetLayout.InfoImageAt | src/causenet/causenet_writer.hpp:141-142 | node i's info block sits in the node-info stream at the total size of the blocks before it |
| CausenetLayout.NodesImageAt | src/causenet/causenet_writer.hpp:141-142 | node i's entry sits at byte 16i of the nodes stream, pointing at its own info block |
| CausenetRoundTrip.FileSections | src/causenet/causenet_writer.hpp:98-117 | the output file is the header, then the nodes, node-info and sources streams at the offsets the header gives |
| CausenetRoundTrip.FileHeader | src/causenet/causenet_writer.hpp:101-106 | the header read back from the file is numNodes, 32, 32 + \|nodes\| and 32 + \|nodes\| + \|nodeInfo\| |
| CausenetRoundTrip.ReadNodeEdges | src/causenet/causenet_writer.hpp:69-79 | reading edges over a written edge array and sentinel yields one entry per effect, with its target and support count |
| CausenetRoundTrip.ReadEdgeSupports | src/causenet/causenet_writer.hpp:67-84 | each edge's supportOffset is where its own offset list was written, and the list decodes to the supports logged for the edge |
| CausenetRoundTrip.ImageWellFormed | src/causenet/causenet.cpp:52-56 | the written file is well formed, numConcepts is the number of nodes, and node entry c is the one written for node c |
| CausenetRoundTrip.ImageConcepts | src/causenet/causenet.cpp:73 | getConceptByIdx(c) on the written file is the name interned as c |
| CausenetRoundTrip.ImageEdges | src/causenet/causenet.cpp:79-82 | the edges read for concept c are the entries written for its effects |
| CausenetRoundTrip.ImageEffects | src/causenet/causenet.cpp:79-82 | getEffects(c) on the written file yields each effect with its support count, in strictly ascending target order |
| CausenetRoundTrip.FirstEdgeToList | src/causenet/causenet.cpp:90-91 | on sorted effects, the first edge to a target is at its lower bound if the key is there, and absent otherwise |
| CausenetRoundTrip.ImageSupport | src/causenet/causenet.cpp:89-100 | getSupport(c, e) on the written file is every support passed to writeEdge for (c, e), in call order with duplicates, and empty for a pair never written |
| CausenetRoundTrip.ImageConceptIdx | src/causenet/causenet.cpp:67-72 | getConceptIdx(name) on the written file is the name's interned index, and size_t(-1) for a name never interned |
| Writer.LoggedEdgesConsistent | src/causenet/causenet_writer.hpp:53-56 | reading the sorted effects as a std::map gives the same consistency condition |
| Writer.RecordedAppend | src/causenet/causenet_writer.hpp:89-94 | a new support recorded at the stream's end points at its record, and every earlier offset still points at its own and lies before the old end |
| Writer.SupportStep | src/causenet/causenet_writer.hpp:88-96 | writeSupport on a seen support returns its recorded offset and leaves the stream unchanged; on a new one it returns the stream's prior length and appends its record |
| Writer.SupportStepInv | src/causenet/causenet_writer.hpp:88-96 | writeSupport keeps the writer's invariant (including the injectivity of the dedup table), and the returned offset points at the support's record |
| Writer.SupportStepFresh | src/causenet/causenet_writer.hpp:88-96 | a support seen for the first time gets an offset beyond every recorded one, which is what keeps the dedup table injective |
| Writer.DistinctOffsets | src/causenet/causenet_writer.hpp:88-96 | under the writer's invariant, two different supports in the dedup table have different offsets |
| Writer.InternStep | src/causenet/causenet_writer.hpp:147-152 | a known name returns its index and adds no node; a new name gets the next index, \|nodes\|, and a node of its own |
| Writer.InternStepInv | src/causenet/causenet_writer.hpp:147-152 | interning keeps conceptToIdx a bijection onto the node indices, and the returned index's node has the name |
| Writer.OpenStepFacts | src/causenet/causenet_writer.hpp:153 | nodes[c].effects[e] inserts an empty offset list only when the edge is new, and changes nothing else |
| Writer.AppendStepFacts | src/causenet/causenet_writer.hpp:155 | one support appends its offset to the edge's list and logs the support, and changes nothing else |
| Writer.AppendAllLog | src/causenet/causenet_writer.hpp:154-156 | the loop logs exactly the given supports for the edge, in order |
| Writer.WriteEdgeInv | src/causenet/causenet_writer.hpp:146-157 | writeEdge keeps the writer's invariant |
| Writer.WriteEdgeConcepts | src/causenet/causenet_writer.hpp:147-152 | writeEdge adds its two names to conceptToIdx, keeps every old index, and numbers new names sequentially in first-seen order |
| Writer.WriteEdgeNodes | src/causenet/causenet_writer.hpp:146-152 | writeEdge keeps every existing node and its name |
| Writer.WriteEdgeLog | src/causenet/causenet_writer.hpp:153-156 | writeEdge extends the log of the one (cause, effect) pair by exactly the given supports, in order, and creates no second edge for a repeated pair |
| Writer.WriteEdgeSupports | src/causenet/causenet_writer.hpp:154-155 | after writeEdge the dedup table holds the old supports (at unchanged offsets) and the new ones, and the sources stream only grew |
| Writer.CausenetWriter.constructor | src/causenet/causenet_writer.hpp:120-134 | a fresh writer has empty tables, no nodes and empty staging streams |
| Writer.CausenetWriter.WriteSupport | src/causenet/causenet_writer.hpp:88-96 | the method's new state and result are those of SupportStep |
| Writer.CausenetWriter.WriteEdge | src/causenet/causenet_writer.hpp:146-157 | the method keeps Valid and its new state is that of WriteEdgeStep |
| Writer.CausenetWriter.WriteNodeInfo | src/causenet/causenet_writer.hpp:65-86 | returns the node-info length before the call and appends the name and NUL, one edge per effect, the sentinel and the offset lists |
| Writer.CausenetWriter.WriteEdges | src/causenet/causenet_writer.hpp:69-77 | appends one edge per effect, each supportOffset advancing by 8 bytes per support of the edges before it |
| Writer.CausenetWriter.WriteOffsetLists | src/causenet/causenet_writer.hpp:81-84 | appends every effect's offset list in effect order |
| Writer.CausenetWriter.WriteNodeWithInfo | src/causenet/causenet_writer.hpp:59-63 | appends the node's info block and a node entry with nameOffset = start and effectOffset = start + \|name\| + 1 |
| Writer.CausenetWriter.WriteOutfile | src/causenet/causenet_writer.hpp:98-117 | the output is the header for \|conceptToIdx\| nodes followed by the three staging streams |
| Writer.CausenetWriter.WriteNodes | src/causenet/causenet_writer.hpp:141-142 | writes every node in index order, so the streams are the images of the node list |
| Writer.CausenetWriter.Close | src/causenet/causenet_writer.hpp:138-144 | close() leaves the output file equal to the image of the nodes and sources |
| JsonlIngest.SourceNameInjective | src/causenet/causenet.cpp:184-193 | distinct source types have distinct "type" strings |
| JsonlIngest.KindOf | src/causenet/causenet.cpp:184-196 | a "type" string maps to the source type whose name it is, and to None when it names none |
| JsonlIngest.SupportOf | src/causenet/causenet.cpp:181-198 | a converted support has the source's type, the "sentence" member cut at its first NUL as content (empty when missing), and the type's id member cut at its first NUL as id, mapped through the ClueWeb id function for clueweb12_sentence |
| JsonlIngest.SupportOfNoNul | src/causenet/causenet.cpp:182-192 | a converted support's content holds no NUL, and neither does its id unless the ClueWeb id function produced it |
| JsonlIngest.SupportOfFailure | src/causenet/causenet.cpp:184-197 | a conversion fails only on an unknown "type" string (the runtime_error) or on a known type whose id member is missing |
| JsonlIngest.SupportOfName | src/causenet/causenet.cpp:184-195 | each of the four type strings converts to its own source type when the id member is present |
| JsonlIngest.SupportsOf | src/causenet/causenet.cpp:179-200 | a line's supports convert iff every source converts, and then they are the conversions of its sources, in order |
| JsonlIngest.SupportsOfFailure | src/causenet/causenet.cpp:179-200 | a line fails with the error of its first failing source |
| JsonlIngest.CollectSupports | src/causenet/causenet.cpp:178-200 | the loop computes SupportsOf |
| JsonlIngest.IngestStep | src/causenet/causenet.cpp:171-201 | a line whose sources convert becomes one writeEdge of its cause and effect, each cut at its first NUL, and its supports, and ingestion continues with the next line |
| JsonlIngest.IngestStop | src/causenet/causenet.cpp:196-197 | the first line with a failing source stops ingestion with its error |
| JsonlIngest.IngestRows | src/causenet/causenet.cpp:171-207 | the loop keeps the writer valid and reaches the state of Ingest |
| JsonlIngest.JsonlToBinary | src/causenet/causenet.cpp:165-208 | the writer's state is Ingest from an empty writer; on a missing id member (an abort) no output file is written, otherwise the output file is the image of its nodes and sources |
| ShortestPaths.MinIndex | include/utils/shortest_paths.hpp:26-27 | the queue's top comes first in lexicographic (distance, node) order |
| ShortestPaths.PopKeeps | include/utils/shortest_paths.hpp:31 | pop removes exactly the top, one occurrence of it |
| ShortestPaths.DiscoverGrows | include/utils/shortest_paths.hpp:33-39 | expanding a node keeps all earlier discoveries and predecessors, queues each newly discovered node once, and marks every neighbour visited |
| ShortestPaths.StepInv | include/utils/shortest_paths.hpp:31-40 | a round keeps the invariant (discovered nodes distinct and bounded, each predecessor an edge away and discovered earlier) and discovers a node or shrinks the queue |
| ShortestPaths.Run | include/utils/shortest_paths.hpp:31-40 | the loop ends with an empty queue or with the target on top, keeping the invariant |
| ShortestPaths.PreviousCloser | include/utils/shortest_paths.hpp:37 | a discovered node's predecessor is known, discovered earlier and an edge away |
| ShortestPaths.PathTo | include/utils/shortest_paths.hpp:42-45 | following previous back from a discovered node gives a path from start to it |
| ShortestPaths.PathBack | include/utils/shortest_paths.hpp:44 | the path to a node is the path to its predecessor followed by the node |
| ShortestPaths.ShortestPathOf | include/utils/shortest_paths.hpp:41-49 | a non-empty result starts at start, ends at target and follows edges of the neighbour function |
| ShortestPaths.CorrectedComplete | include/utils/shortest_paths.hpp:31-49 | with the top popped before it is expanded, the result is non-empty iff some path leads from start to target |
| ShortestPaths.AsWrittenMissesPath | include/utils/shortest_paths.hpp:31-39 | as written, start 1, target 0 and one edge 1→0 of weight 0 give the empty path although [1, 0] is a path |
| ShortestPaths.CorrectedFindsPath | include/utils/shortest_paths.hpp:31-39 | with the corrected order the same input gives [1, 0] |
| ShortestPaths.FirstDiscoveryWins | include/utils/shortest_paths.hpp:34-37 | on A→B (1), B→C (1), A→C (5) the result is [A, C]: a node keeps the predecessor of its first discovery |
| ShortestPaths.DiscoverNeighbors | include/utils/shortest_paths.hpp:33-39 | the inner loop computes Discover |
| ShortestPaths.TracePath | include/utils/shortest_paths.hpp:42-46 | the do-while and the reversal give the path that PathTo defines |
| ShortestPaths.ShortestPath | include/utils/shortest_paths.hpp:25-50 | the method computes the search as written |
| ShortestPaths.ShortestPathCorrected | include/utils/shortest_paths.hpp:25-50 | the method computes the search with the top popped before it is expanded |
| Components.FirstUnassigned | include/utils/shortest_paths.hpp:59 | std::find: the position of the first unassigned mark, every earlier one assigned |
| Components.UnassignedMark | include/utils/shortest_paths.hpp:73 | marking an unassigned node leaves one unassigned node fewer |
| Components.FinishedPath | include/utils/shortest_paths.hpp:61-76 | a path from a node of a closed component stays inside that component |
| Components.EarlierTarget | include/utils/shortest_paths.hpp:70 | an edge from the current component into an earlier one rules out every labelling that is consistent along edges and spanned from each label's first node |
| Components.Asymmetric | include/utils/shortest_paths.hpp:70 | the assertion fails only on an edge u→w whose reverse w→u is missing, so the neighbour function is not symmetric |
| Components.ExpandEdge | include/utils/shortest_paths.hpp:70-74 | one neighbour is either queued and marked with the current label, already has it, or fails the assertion, and then no consistent, spanned labelling exists |
| Components.ExpandNode | include/utils/shortest_paths.hpp:68-75 | expanding a node gives every in-range neighbour the current label, or fails only on an asymmetric edge into an earlier component, when no consistent, spanned labelling exists |
| Components.MarkComponent | include/utils/shortest_paths.hpp:61-76 | the breadth-first loop labels the new component so that no edge leaves it, each labelled node reachable from its root |
| Components.CloseComponent | include/utils/shortest_paths.hpp:65-76 | once the queue is empty, every edge from a labelled node stays inside its label |
| Components.RootIsFirst | include/utils/shortest_paths.hpp:59-64 | component i's root is the lowest-index node labelled i + 1 |
| Components.Complete | include/utils/shortest_paths.hpp:58-59 | once no node is unassigned, the labels are consistent along edges, numbered consecutively from 1 in order of each component's lowest-index node, and each node is reachable from its component's first node |
| Components.CompleteOrdered | include/utils/shortest_paths.hpp:58-64 | since the outer loop starts a new component only at the lowest unassigned node, every node before a component's first node has a smaller label |
| Components.ConnectedComponents | include/utils/shortest_paths.hpp:54-79 | returns numNodes labels, all nonzero, numbered consecutively from 1, equal along every edge, numbered in order of each component's lowest-index node (every node before it has a smaller label), each node reachable from the first node with its label; it fails exactly when no labelling of the nodes is consistent along edges and spanned from each label's first node (an edge into an earlier component), which needs a neighbour function that is not symmetric |
| Components.PathSameLabel | include/utils/shortest_paths.hpp:65-76 | consistent labels are equal along every path |
| Components.LabelsAreComponents | include/utils/shortest_paths.hpp:54-79 | for a symmetric neighbour function, two nodes have the same label iff one is reachable from the other |
| Counting.Count | include/utils/shortest_paths.hpp:81-87 | the map holds exactly the values of the range, each with its number of occurrences |
| Warc.OnlyWhitespace | include/warc.hpp:15-17 | true iff every character is whitespace, so true on the empty string |
| Warc.FirstNonSpace | include/warc.hpp:20-22 | find_if: the first non-whitespace position, everything before it whitespace |
| Warc.EndNonSpace | include/warc.hpp:23-25 | the reverse find_if's base: everything from it on is whitespace, and the character before it is not |
| Warc.TrimRangeOrdered | include/warc.hpp:19-27 | trim's begin is at most its end iff the string is empty or holds a non-whitespace character |
| Warc.AsWrittenTrimReversed | include/warc.hpp:26 | on " ", trim builds the reversed range (1, 0) |
| Warc.Trim | include/warc.hpp:19-27 | the trimmed string neither starts nor ends with whitespace, and is empty iff the string is only whitespace |
| Warc.TrimCuts | include/warc.hpp:19-27 | the trimmed string is a contiguous piece of the string with only whitespace before and after it |
| Warc.TrimTrimmed | include/warc.hpp:19-27 | a string that neither starts nor ends with whitespace is its own trim |
| Warc.TrimIdempotent | include/warc.hpp:19-27 | trimming twice is trimming once |
| Warc.Find | include/warc.hpp:30 | the first position of the delimiter |
| Warc.FindAfter | include/warc.hpp:30 | the delimiter after a prefix without it is found right after that prefix |
| Warc.Split | include/warc.hpp:29-34 | the key holds no delimiter |
| Warc.KeepsOut | include/warc.hpp:31 | trimming adds no character |
| Warc.SplitJoin | include/warc.hpp:29-34 | splitting key, delimiter and value gives back the key and value when both are trimmed and the key has no delimiter |
| Warc.ParseULL | include/warc.hpp:46 | strtoull's value never exceeds ULLONG_MAX |
| Warc.ParseDecimal | include/warc.hpp:46 | strtoull reads back the decimal digits of any value up to ULLONG_MAX |
| Warc.DecimalValue | include/warc.hpp:46 | the digits of n have the value n |
| Warc.Resize | include/warc.hpp:47 | resize keeps the first characters and pads with NULs to the new length |
| Warc.HeaderEnd | include/warc.hpp:44 | the header block ends at the first whitespace-only line, or at the end of input |
| Warc.HeaderEntries | include/warc.hpp:44-45 | one entry per header line, the split of that line at its first ':' |
| Warc.EmplacedKeys | include/warc.hpp:45 | emplace gives a key iff it was there or some entry has it |
| Warc.EmplacedKeeps | include/warc.hpp:45 | emplace never replaces the value of a key already present |
| Warc.EmplacedFirst | include/warc.hpp:45 | a new key takes the value of its first entry |
| Warc.HeadersFirstWins | include/warc.hpp:44-45 | a header line whose key no earlier line has sets that key's value |
| Warc.HeadersKeys | include/warc.hpp:44-45 | the keys are exactly the keys of the header lines |
| Warc.WarcRecord.constructor | include/warc.hpp:10-13 | a new record has no entries and empty content |
| Warc.WarcRecord.ReadHeaders | include/warc.hpp:39-45 | the loop clears the entries and leaves them as Headers of the lines |
| Warc.WarcRecord.ReadRecord | include/warc.hpp:36-51 | a version other than WARC/1.0 fails with the entries cleared; otherwise the entries are the headers, with an empty Content-Length inserted when it is missing, and the content has the parsed length, filled from the body, failing when the body is shorter |

## Left out

- The streams themselves are not modelled: the fstreams, tellp, seekg and rdbuf copying, mmap, open64 and file sizes. A staging file is a growing byte sequence and the mapped file is a byte sequence.
- Writer.CausenetWriter.WriteOutfile: a writer that received no writeEdge (an empty JSONL file, or a first line that fails) has an empty nodes stream. `out << nodesFile.rdbuf()` then inserts nothing and sets failbit, tellp() returns -1, and the assertion at causenet_writer.hpp:111 aborts. The model's lengths always satisfy the three position checks, so `WriteOutfile`, `Close` and `JsonlToBinary` state the header and streams image for this case as well.
- The reader's reads outside the mapping are undefined behaviour in C++. The reader's operations require `WellFormed(file)` instead, and the written file is proved to satisfy it. `WellFormed` also rejects an in-bounds support record whose type byte is 4 or more, which the C++ would cast to a SourceType outside the enum; the writer never writes such a byte.
- The `std::hash<Support>` specialisation is not modelled. Hash values do not change what the dedup table holds, so the table is a Dafny `map`.
- The console output is not modelled: the counts printed by close(), the component numbers in connectedComponents, and the progress of jsonlToBinary with its hard-coded row count.
- close() runs once, from ~CausenetWriter (causenet_writer.hpp:136) at the end of jsonlToBinary. `JsonlToBinary` models it by calling `Close` once at the end.
- JsonlIngest.JsonlToBinary: on an unknown source type the runtime_error is taken to unwind the stack, so ~CausenetWriter runs close() and the output file holds the lines before the failing one. No caller in the repository catches the exception; an uncaught exception calls std::terminate, and whether the stack is unwound first is implementation-defined. On input that yields no writeEdge, close() aborts at causenet_writer.hpp:111 (see the WriteOutfile line), where the contract still states the image. A missing id member is modelled as rapidjson's assertion with assertions enabled (abort, no output file); under NDEBUG, GetString() on the null value is undefined behaviour, which is not modelled.
- rapidjson parsing is not modelled. A line arrives as a `Row` holding its cause, effect and sources. A source's id member is present only if its payload map holds it, and a missing member (rapidjson's assertion) is an error.
- `warcId2ClueWebId` / `getMap` are not modelled: they read a file with a regex into a static map. They are the function parameter `clueWebId`.
- The Generator coroutines are not modelled. Yielded streams are finite sequences.
- The commented-out floydWarshall, the REST controllers and main.cpp are not part of this model.
- The WARC stream side is not modelled: the sentry's whitespace skipping, `is >> line` and getline's line splitting. The version word, the lines and the body are parameters. A length too large to allocate is also left out.
- The locale-dependent `isspace` is replaced by the fixed ASCII whitespace set (space, \t, \n, \v, \f, \r).
- Warc.WarcRecord.ReadRecord: the assertions at warc.hpp:43 and :48 are modelled as failure (ok false), as in a build with assertions enabled. Under NDEBUG the version is not checked, and the is.read inside the assertion at line 48 never runs, so the content is only resized and never filled; that build is not modelled.
- Warc.Split: requires ':' in the line. Without it `find` returns npos and the iterator arithmetic is undefined, so header lines are required to hold ':' (`HeadersWellFormed`).
- Warc.ParseULL: only the value is modelled. It skips leading whitespace and takes an optional sign and decimal digits, clamping to ULLONG_MAX and wrapping negatives; errno and the end pointer are not modelled.
- ShortestPaths.ShortestPath: requires start != target. For start == target, the do-while reads previous[start], which the search never sets, and it may not terminate. The distances are unbounded integers, so the int overflow of dist + weight is not modelled.
- ShortestPaths.ShortestPathOf: no minimum-cost property is stated. The search is a first-discovery search and does not promise one.
- Components.ConnectedComponents: the assertion at line 70 is modelled as failure (None), as in a build with assertions enabled. The Counter type is an unbounded nat; its overflow is not modelled.
- Counting.Count: the sum of the counts is not stated separately. It equals the range's length, because every count agrees with the range's multiset.
- CausenetFile.ReadSupport: requires id and content without NUL. The writer writes such supports with c_str(), but the reader stops at the first NUL (see NulInIdTruncates). The round trip therefore assumes `WithinLimits`: no NUL in names, ids or contents, offsets fitting a u64, fewer than 2^32 - 1 nodes and fewer than 2^32 supports per edge.

## Findings

| source | as written | input that shows it | evidently intended | confidence | as-written member | corrected member |
|---|---|---|---|---|---|---|
| include/utils/shortest_paths.hpp:31-39 | queue.pop() runs in the loop increment, after the neighbours of the top are pushed; a neighbour pushed with a priority below the top's is popped in its place, never expanded, while the top is expanded again | start 1, target 0, one edge 1→0 of weight 0: (0, 0) is pushed, then popped instead of (0, 1), the queue empties and the result is empty although [1, 0] is a path | pop the top before its neighbours are pushed, so that a path is found whenever one exists | not executed | ShortestPaths.AsWrittenMissesPath | ShortestPaths.CorrectedComplete |
| include/warc.hpp:19-27 | on a non-empty string of only whitespace, begin is the end of the string and rend.base() is its start, so the string_view is built from a reversed range | " " gives begin 1 and end 0; a header line "Key: " reaches it through split | return the empty string | not executed | Warc.AsWrittenTrimReversed | Warc.Trim |
