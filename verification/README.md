# ProtoCache in Dafny

ProtoCache is a flat, word-aligned binary format. This project models the
parts of it that are hard to get right and proves what they promise, for all
inputs:

- **Minimal perfect hashing** (`HashGraph`, `HashMapping`, `HashRank`,
  `HashIndex`, `HashCheck`, `HashBuild`, `Divisor`, `Swar`): a 3-partite
  hypergraph with intrusive doubly linked incidence lists is peeled with a
  queue, labelled in reverse peel order and queried by rank over a packed
  bitmap. The hash is an arbitrary function of key and seed, the seeds are an
  arbitrary stream.
- **The backward-growing serializer** (`Buffer`, `Units`, `Layout`, `Strings`,
  `Serialize`, `Message`, `Offsets`): children are compacted in place, cells get
  the best width, objects that do not fit are reached through tagged relative
  offsets, message headers are two-bit widths in sections.
- **The arena serializer** (`Arena`, `EncodingSize`, `ArenaWriter`): encodes whole
  value trees. `Arena.Enc` says what it means for words to encode a tree.
- **The tape decoder and its consumer** (`Schema`, `Registry`, `Decode`, `Tape`, `Visit`,
  `Values`, `Materialize`, `Deserialize`): registration of types, validation,
  the decode tape, and the cursor that replays it.
- **The whole-value round trip** (`Objects`, `Headers`, `Meaning`,
  `MessageTrip`, `ArrayTrip`, `MapTrip`, `RoundTrip`).
- **Zero-copy readers** (`MapFind`, `Detect`, `Extents`, `ExtentTrip`, `ExtentOrder`): lookup in
  a serialized map, and recovery of the exact extent of a value.
- **Lazy messages** (`Lazy`, `LazyWriter`, `LazyTrip`): serializing a partly read
  message copies what was not read and encodes the rest again.
- **The byte compressor** (`Compress`).

Words are naturals below 2^32, buffers are sequences of words or, where the
program works in place, arrays. Bit operations are written with division,
remainder and a recursive conjunction. `dafny verify dfyconfig.toml` checks
everything.

Results worth knowing before reading the table:

- The decoder refuses an empty map over 64-bit keys or values, although the
  serializer writes one: the empty map is always written with widths 1/1
  (src/serialize.cc:179-183), and the decoder wants width 2
  (typescript/wasm/decode_tape.cc:489-494). `RoundTrip.EmptyWideMapRefused`
  shows it on one input, and `RoundTrip.WholeValueRoundTrip` proves that the
  output is accepted if and only if the tree is readable: nesting within the
  limit and no such map.
- A float field holding negative zero compares equal to zero, so it is dropped
  once it has been read (include/protocache/access-ex.h:440-446).
  `Lazy.NegativeZeroIsLost` shows it on one message, and
  `LazyTrip.LazyRefinesEager` proves that serializing a partly read value keeps
  its meaning if and only if no field that was read is a negative zero.
- The root calls of ArrayEX and MapEX throw their unit away
  (include/protocache/access-ex.h:127-130, 308-311), and an empty array or map
  lives in its unit only (src/serialize.cc:152-156, 179-183). The output for such
  a root is empty and does not decode: `LazyTrip.EmptyRootIsLost` shows it, and
  `LazyTrip.Reserialize` proves that it happens exactly for roots that stay in
  their unit. Message roots are never affected.
- Decompress reserves `size+7` bytes in 32 bits (src/utils.cc:104, 124). For an
  announced size beyond 2^32 - 8 the sum wraps to at most six bytes while the
  bound tests still use the announced size, so that stores leave the buffer:
  `Compressor.WrappedHeaderOverruns` gives a stream, `Compressor.StoresStayInside`
  proves that a header is safe before every token stream if and only if it
  announces at most 2^32 - 8 bytes, and `Compressor.DecompressExactly` what is
  computed on either side of the limit.
- The generated Detect of a message stops at the moved field with the largest id
  (tools/protoc-gen-pccx.cc:272-383), while the arena serializer lays fields out
  as they are listed (typescript/wasm/serialize_arena.cc:204-237). If they are
  listed out of order the extent can be too short: `ExtentOrder.SwappedCut` shows
  it, and `ExtentTrip.DetectedExactly` proves when the extent is exact.
- The block table of a perfect hash, its bitmap and every running count stay
  inside their word types, and the sentinel of the linked lists is never an
  edge index.

## Model

| member | source | states |
|---|---|---|
| Reciprocal.Divisor.Set | src/perfect_hash.cc:33-62 | the precomputed factor, tip and shift approximate the reciprocal closely enough for every 32-bit dividend |
| Reciprocal.DivExact | src/perfect_hash.cc:64-71 | `div` and `mod` equal the true quotient and remainder for every divisor and dividend, and nothing exceeds 64 bits |
| Swar.Count32IsFieldSum | include/protocache/access.h:132-138 | the word-parallel counter is the sum of the sixteen two-bit fields |
| Swar.Count64IsFieldSum | include/protocache/access.h:140-147 | the same for thirty-two fields |
| Swar.CountValidSlotCounts | src/perfect_hash.cc:95-104 | the counter is the number of two-bit fields that are not `11` |
| HashGraph.Graph.InsertEdge | src/perfect_hash.cc:264-276 | the new edge becomes the head of its three incidence lists, which stay well linked |
| HashGraph.Graph.CreateGraph | src/perfect_hash.cc:250-279 | fails exactly when a key cannot be read; otherwise every list threads exactly the edges of its vertex |
| HashGraph.Graph.Unlink | src/perfect_hash.cc:300-309 | removes one edge from a list of a vertex and leaves all lists well linked |
| HashGraph.Graph.TearGraph | src/perfect_hash.cc:281-321 | succeeds if and only if the hypergraph can be peeled; then `free` is a permutation in which every edge owns a vertex no later edge uses, otherwise the edges never queued are the largest core, which contains every other |
| HashGraph.CoreBlocksPeeling | src/perfect_hash.cc:281-321 | a non-empty set of edges in which every touched vertex has two of them rules out every peel order |
| HashGraph.TwinsBlockPeeling | src/perfect_hash.cc:281-321 | two edges with equal vertices rule out every peel order |
| HashMapping.Mapping | src/perfect_hash.cc:323-350 | never reaches its failing assertion; afterwards the labels of every edge select a vertex of its own |
| HashRank.RanksArePermutation | src/perfect_hash.cc:208-232 | the ranks of the labelled vertices are exactly 0..n-1 |
| HashRank.MinimalPerfect | src/perfect_hash.cc:323-350 | edge to rank is a bijection onto 0..n-1 and exactly n vertices are labelled |
| HashIndex.SizesAgree | src/perfect_hash.cc:120-171 | the three index sizes agree, the bitmap exceeds 8 bytes exactly for more than 24 keys, and the blocks cover all vertices |
| HashIndex.FitsWord | src/perfect_hash.cc:250-254 | edge indices, vertices and running ranks fit the chosen word type below its all-ones sentinel |
| HashIndex.LocateIsRank | src/perfect_hash.cc:208-232 | one table entry and one masked block give the rank of the selected vertex |
| HashCheck.Check | src/perfect_hash.cc:356-395 | true implies pairwise different codes, false with all keys read implies two codes equal up to the low bit; probing always finds a free cell |
| HashBuild.FillTable | src/perfect_hash.cc:507-516 | the block table holds the rank at the start of every block and the final count is the number of keys |
| HashBuild.WrittenIndexIsPerfect | src/perfect_hash.cc:208-232 | the written bytes make Locate a bijection from the keys onto 0..n-1, and at most n for any other key |
| HashBuild.TwinKeysFail | src/perfect_hash.cc:483-505 | two equal keys fail under every seed, whatever the hash |
| HashBuild.EqualCodesFail | src/perfect_hash.cc:483-505 | two keys whose three reduced code words agree fail under that seed |
| HashBuild.TrySeeds | src/perfect_hash.cc:483-505 | a result is perfect; without a result none of the seeds peels |
| HashBuild.Build | src/perfect_hash.cc:520-548 | a result is perfect; equal keys and 2^28 keys or more never give one; a peelable seed among the first tries always does |
| HashBuild.BuilderLocate | src/perfect_hash.cc:190-206 | the builder's Locate, with the reciprocal divisor, agrees with the reader's on every key |
| Buffers.Buffer.Grow | src/utils.cc:162-180 | reallocation keeps the contents at the end and makes room in front |
| Buffers.Buffer.Expand | include/protocache/utils.h:151-158 | room for new words in front of unchanged contents |
| Buffers.Buffer.Shrink | include/protocache/utils.h:160-163 | drops words from the front |
| Buffers.Buffer.PutAll | include/protocache/utils.h:146-149 | the contents become the block followed by the old contents |
| Units.MoveUp | src/serialize.cc:123-125 | the overlapping copy from the last word moves exactly the segment |
| Units.Pick | src/serialize.cc:93-131 | a segment that fits becomes inline, a longer one is moved up unchanged with its corrected position, everything below it is untouched |
| Units.Compact | src/serialize.cc:164-168 | the kept segments end contiguous and in order with unchanged words, and everything below `last` is untouched |
| Units.Mark | src/serialize.cc:133-149 | puts the object padded with zeros, or its tagged relative offset, in front |
| Units.WriteCells | src/serialize.cc:164-171 | cells in front of the objects that do not fit them, in order, in front of the untouched rest |
| Layout.CellAt | src/serialize.cc:133-149 | where every cell starts and that it holds its object or the distance to it |
| Layout.KeptAt | src/serialize.cc:93-131 | where every out-of-line object is |
| Strings.VarIntRoundTrip | src/serialize.cc:15-23 | every varint is read back, whatever follows it |
| Strings.WriteVarInt | src/serialize.cc:15-23 | the loop writes the varint of its argument in at most five bytes |
| Strings.SerializeString | src/serialize.cc:29-56 | fails exactly from 2^30 bytes on; otherwise header and bytes, padded, inline or in front |
| Serialize.BestWidth | src/serialize.cc:58-91 | no width in 1..3 uses fewer words for cells and out-of-line objects |
| Serialize.BestArraySize | src/serialize.cc:58-91 | the loop returns the best width and exactly the words it uses |
| Serialize.ItemTotals | src/serialize.cc:58-91 | the words counted are those of the cells and the out-of-line objects |
| Serialize.SerializeArray | src/serialize.cc:151-175 | fails exactly when the size reaches 2^30 words; otherwise the buffer is header, cells and out-of-line elements in front of the untouched rest |
| Serialize.SerializeMap | src/serialize.cc:177-214 | the same for index, interleaved key and value cells and out-of-line objects; an empty map is one word |
| Messages.GetFieldReadsBack | include/protocache/access.h:203-234 | GetField returns exactly the stored cell and width of every present field, and nothing for any other id, in every section |
| Messages.BuildMessage | src/serialize.cc:240-300 | succeeds exactly when every section base fits 14 bits; then header and body are those of the widths |
| Messages.SerializeMessage | src/serialize.cc:216-302 | succeeds exactly for accepted sizes and sections; trailing absent fields are trimmed, header and cells go in front |
| Offsets.ArrayOffsetsFit | src/serialize.cc:151-175 | the size limit keeps every array offset below 2^30, so its cell holds four times the distance plus three |
| Offsets.MapOffsetsFit | src/serialize.cc:185-214 | the same for maps |
| Offsets.MessageOffsetsFit | src/serialize.cc:229-278 | the same for messages whose segments lie in field order |
| Registry.IndexFields | typescript/wasm/decode_tape.cc:576-583 | fails exactly when a field id repeats; otherwise the index inverts the ids of the fields |
| Registry.ReadPlan | typescript/wasm/decode_tape.cc:558-600 | reads the one plan that the words describe, and fails exactly when they describe none within the limits |
| Registry.OnePlan | typescript/wasm/decode_tape.cc:539-616 | the words of a plan determine it |
| Registry.Registry.Reserve | typescript/wasm/decode_tape.cc:646-664 | appends a reserved type and gives its handle, or 0 for kinds without a plan; committed plans stay sound |
| Registry.Registry.Commit | typescript/wasm/decode_tape.cc:539-616 | succeeds exactly when the type is reserved and not yet committed and the words describe a sound plan of its kind, which is then recorded; all committed plans stay sound |
| Registry.CommittedTypesOk | typescript/wasm/decode_tape.cc:601-616 | after any run of the two calls, once all types are committed they are what the decoder relies on |
| Decode.RandomAccessIsScan | include/protocache/access.h:203-234 | the masked prefix sum of GetField finds the offset and width that summing one width at a time finds |
| Decode.AcceptedFieldsAgree | typescript/wasm/decode_tape.cc:321-364 | on every accepted message the recorded cell equals GetField's, and no present field is at index 0 |
| Decode.ParseFits | typescript/wasm/decode_tape.cc:279-537 | whatever is accepted has the shape of its type and points inside the input |
| Visitor.SumWidths | typescript/wasm/decode_tape.cc:206-213 | the loop sums the lowest two-bit fields |
| Visitor.MeasureBody | typescript/wasm/decode_tape.cc:296-306 | the size taken from the last section is the size of the whole body |
| Visitor.ReadBytes | typescript/wasm/decode_tape.cc:176-204 | the loop over the varint header finds the span of the byte array or refuses it |
| Visitor.Decoder.Record | typescript/wasm/decode_tape.cc:321-327 | stores the cell of an id in its descriptor and leaves all other tape words alone |
| Visitor.Decoder.ScanHeader | typescript/wasm/decode_tape.cc:329-364 | fails exactly when a present field crosses the limit; otherwise every descriptor holds its scanned cell |
| Visitor.Decoder.VisitMessage | typescript/wasm/decode_tape.cc:279-386 | accepts exactly the parsable messages and appends exactly their records |
| Visitor.Decoder.VisitArray | typescript/wasm/decode_tape.cc:388-442 | the same for arrays |
| Visitor.Decoder.VisitMap | typescript/wasm/decode_tape.cc:444-521 | the same for maps |
| Visitor.Decoder.Visit | typescript/wasm/decode_tape.cc:523-537 | accepts exactly what Parse accepts, appends its tape, and never alters words that were on the tape before |
| Materializer.Context.ReadMessage | typescript/src/deserialize-tape.ts:219-254 | reads the fields from descriptors and child records and leaves the cursor behind the last record |
| Materializer.Context.ReadArray | typescript/src/deserialize-tape.ts:256-295 | the same for arrays |
| Materializer.Context.ReadMap | typescript/src/deserialize-tape.ts:297-344 | the same for maps |
| Materializer.Context.Materialize | typescript/src/deserialize-tape.ts:212-344 | started at a tree's record it returns the tree's value and advances the cursor by exactly the tree's tape; every read is inside the input |
| Deserializer.TapeFits | typescript/wasm/decode_tape.cc:238-256 | every tape word of an accepted input of up to 2^30 bytes fits 32 bits |
| Deserializer.DecodeTape | typescript/wasm/decode_tape.cc:695-744 | yields the tape of the root exactly for accepted inputs |
| Deserializer.Deserialize | typescript/src/deserialize-tape.ts:346-375 | the value located by the decoder; the check for trailing records never fires |
| ArenaWriter.FoldField | include/protocache/serialize.h:73-83 | objects of up to three words move from the buffer into their unit, longer ones stay |
| ArenaWriter.SerializeScalars | typescript/wasm/serialize_arena.cc:147-180 | header and elements in front of the unchanged buffer |
| ArenaWriter.CheckIds | typescript/wasm/serialize_arena.cc:212-226 | true exactly when all field ids are in range and different |
| ArenaWriter.SlotOrder | typescript/wasm/serialize_arena.cc:271-278 | on a perfect index no slot is out of range or taken, and the order inverts Locate |
| EncodingSize.EncodingLength | typescript/wasm/serialize_arena.cc:293-345 | all encodings of a tree have the same length, whatever indices its maps got and in whatever order their entries stand |
| ArenaWriter.SerializeArrayNode | typescript/wasm/serialize_arena.cc:182-202 | succeeds exactly when no element is refused and the size stays below its limit; then the words encode the array, whose elements may be of any kind |
| ArenaWriter.SerializeMapNode | typescript/wasm/serialize_arena.cc:239-291 | succeeds exactly when the kinds match, an index is found within the tries, no entry is refused and the size stays below its limit; then the words encode the map, entries at the slots of a perfect index |
| ArenaWriter.SerializeMessageNode | typescript/wasm/serialize_arena.cc:204-237 | succeeds exactly when capacity, ids, fields, size and sections are accepted; then the words encode the message, whatever the order of its fields |
| ArenaWriter.SerializeNode | typescript/wasm/serialize_arena.cc:293-345 | fails exactly for the listed reasons: a size limit, bad ids, mismatched kinds, or no index within the tries; on success the words produced encode the tree, in the unit exactly for short strings, scalars and empty containers and otherwise in front of the unchanged buffer |
| ArenaWriter.SerializeArena | typescript/wasm/serialize_arena.cc:384-412 | a result encodes the root and is shorter than 2^30 words; there is none exactly when the kind is wrong, the tree is refused, or an encoding is too long |
| Objects.TagUnambiguous | data-format.md:16-19 | no object of up to three words starts with a word ending in `11` |
| Objects.LeadsInline | include/protocache/access.h:101-116 | a cell that embeds an object leads to the object |
| Objects.LeadsOut | include/protocache/access.h:101-116 | a cell with an offset leads to the object it was written for |
| Objects.CellStored | src/serialize.cc:133-149 | every cell of an array or map embeds its object or points exactly to it |
| Objects.StringFound | typescript/wasm/decode_tape.cc:176-204 | a serialized string is read back wherever it is stored |
| Headers.ScanReadsBack | typescript/wasm/decode_tape.cc:329-364 | the scan finds every written field at its cell and no other field |
| Headers.BodyReadsBack | typescript/wasm/decode_tape.cc:296-307 | the body size computed from the last section is the size of the body that was written |
| MapTrip.KeysUnique | typescript/wasm/serialize_arena.cc:271-278 | different entries of a serialized map have different keys |
| MapTrip.MapValue | typescript/src/deserialize-tape.ts:311-343 | slot order does not change the value of a map |
| RoundTrip.Recovered | typescript/wasm/decode_tape.cc:279-537 | every well-typed tree is recovered from its encoding wherever that lies: accepted exactly when readable, and with the value of the tree |
| RoundTrip.NestingReadable | typescript/wasm/decode_tape.cc:366-384 | nesting of at most 256 levels without empty wide maps is readable |
| RoundTrip.WholeValueRoundTrip | typescript/wasm/serialize_arena.cc:293-345 | an output decodes if and only if the tree is readable, and then to the value of the tree, maps up to order and absent fields absent |
| RoundTrip.SerializeAndDeserialize | typescript/src/deserialize-tape.ts:346-375 | serializing and deserializing gives back the value for every typed tree of up to 256 levels without empty wide maps, unless the tape exceeds its length limit; nothing is produced exactly when the tree is refused or its encoding exceeds 2^30 bytes |
| RoundTrip.EmptyWideMapRefused | typescript/wasm/decode_tape.cc:489-494 | the encoding of an empty map over 64-bit keys is refused |
| MapFinder.SameLocate | src/perfect_hash.cc:128-130 | Locate ignores the width bits in the header, for every key |
| MapFinder.Opened | include/protocache/access.h:369-390 | a serialized map opens with its widths and count, and its Locate is the builder's, at most n for any key |
| MapFinder.FindStringAgrees | include/protocache/access.h:461-472 | Find returns the entry with the key, and nothing exactly when no entry has it |
| MapFinder.FindScalarAgrees | include/protocache/access.h:481-495 | the same for integer keys |
| MapFinder.FindInEmpty | include/protocache/access.h:461-495 | nothing is found in an empty map |
| Detector.Detect | include/protocache/access.h:646-661 | the loops from the back compute the extent, stopping at the first object beyond the cells |
| Detector.ScanPairs | include/protocache/access.h:811-837 | the loop over the pairs of a map, value before key |
| Detector.ScanFields | tools/protoc-gen-pccx.cc:272-383 | the generated code over the fields, scalars passed over |
| Extents.MessageTail | include/protocache/access.h:168-184 | Message::Detect counts the same body as the scanning decoder |
| Extents.StringExtent | include/protocache/access.h:62-70 | String::Detect ends where the serialized string ends |
| Extents.CellsChain | include/protocache/access.h:646-661 | the loop over the cells of an array stops at the last out-of-line object, and so reaches the end of all of them exactly if that one is whole |
| Extents.FieldsChain | tools/protoc-gen-pccx.cc:272-383 | the generated code over the fields stops at the last field of the type that is out of line |
| ExtentTrip.DetectedExactly | include/protocache/access.h:646-661 | for every typed tree, whatever the order of its fields, Detect ends inside the words of the tree, and at their end if and only if the tree is whole: at every level the moved object the loops stop at is the one written last, in a message the last moved field of the type being the last one listed |
| ExtentTrip.OrderedWhole | tools/protoc-gen-pccx.cc:272-383 | every typed tree with its fields listed by ascending id is whole, at every level |
| ExtentTrip.Detected | include/protocache/access.h:646-661 | so Detect returns exactly the words of every typed tree serialized with its fields in order |
| ExtentOrder.SwappedCut | tools/protoc-gen-pccx.cc:272-383 | of a message with two long strings, field 1 listed before field 0, Detect loses exactly the words of field 0 |
| ExtentOrder.SwappedEncoded | typescript/wasm/serialize_arena.cc:204-237 | every such message has an encoding |
| LazyTrip.CopiedExtentRecovers | include/protocache/access-ex.h:363-375 | the detected extent is self-contained: copied anywhere it is recovered as the same value |
| Lazy.SameMeaning | include/protocache/access-ex.h:429-485 | what a partly read tree without a read negative zero is serialized to means the same up to fields that hold their default |
| Lazy.SameMeaningExactly | include/protocache/access-ex.h:429-485 | for trees whose maps have different keys, the meaning is kept if and only if no field that was read is a negative zero |
| Lazy.NegativeZeroIsLost | include/protocache/access-ex.h:440-446 | a read float field holding negative zero is dropped |
| LazyWriter.OneWordMessage | include/protocache/access-ex.h:454-462 | a message takes a single word exactly when it has no field |
| LazyWriter.Copy | include/protocache/access-ex.h:363-375 | short extents go into the unit when folding, others in front of the buffer |
| LazyWriter.LazySource.SerializeField | include/protocache/access-ex.h:429-485 | unread fields are copied, read ones dropped when default and encoded otherwise; fails exactly when the field is refused |
| LazyWriter.LazySource.SerializeElements | include/protocache/access-ex.h:131-140 | the elements are serialized by what was read of them and the array encodes the result; fails exactly when an element or the size is refused |
| LazyWriter.LazySource.SerializeEntries | include/protocache/access-ex.h:312-342 | a new perfect index over the same keys, entries at their slots; fails exactly when no index is found or an entry or the size is refused |
| LazyWriter.LazySource.Serialize | tools/protoc-gen-pccx.cc:640-657 | the words produced encode the refreshed tree; a message of which nothing was read is copied as a whole; fails exactly for the reasons of the parts that are encoded again; the result stays in its unit exactly for short values that are encoded again |
| LazyTrip.LazyRefinesEager | include/protocache/access-ex.h:412-485 | if the source decodes then so do the words of its partly read form, and the values agree up to defaults if and only if no field that was read is a negative zero |
| LazyTrip.EncodedKeysDiffer | src/perfect_hash.cc:208-232 | in every encoded tree the keys of each map differ |
| LazyTrip.EmptyRootIsLost | include/protocache/access-ex.h:127-130 | an empty array of messages, arrays or maps decodes from its one word, and nothing decodes from the empty output of its root call |
| LazyTrip.Reserialize | include/protocache/access-ex.h:127-140 | for any root whose fields are listed by ascending id, and any set of fields read: the output is empty exactly when the root stays in its unit; if the source decodes, the output does exactly when it is not empty, and with the same values up to defaults if and only if no field that was read is a negative zero; there is no output exactly when a part is refused |
| Compressor.PickToken | src/utils.cc:42-59 | the next token covers a run of up to four equal 0x00 or 0xff bytes, or up to seven others |
| Compressor.Compress | src/utils.cc:29-95 | length and token stream; every wide store stays inside the reserved buffer |
| Compressor.PackBound | src/utils.cc:61-62 | the token stream is at most ceil(n/14) bytes longer than its input |
| Compressor.PackRoundTrip | src/utils.cc:97-160 | decoding the token stream restores the bytes |
| Compressor.Decompress | src/utils.cc:97-160 | the loop with wide stores into `size+7` bytes, the sum taken in 32 bits, computes the outcome: the bytes, a failure, or a store outside the buffer |
| Compressor.DecompressExactly | src/utils.cc:124-159 | up to an announced size of 2^32 - 8 the outcome is exactly what the stream stands for and no store leaves the buffer; beyond it no input is restored |
| Compressor.StoresStayInside | src/utils.cc:124-126 | a header is safe before every token stream if and only if it announces at most 2^32 - 8 bytes |
| Compressor.WrappedHeaderOverruns | src/utils.cc:124 | the header ff ff ff ff 0f reserves six bytes, which two runs leave |
| Compressor.CompressRoundTrip | src/utils.cc:29-160 | decompressing what was compressed restores every byte string of up to 2^32 - 8 bytes, with all stores inside the buffer |

## Left out

- Hash mixing and seed sources (src/hash.cc): the hash is an arbitrary function of key and seed, and the same seed stream may serve every build.
- The probability that a seed peels: results are conditional on success, and `HashBuild.Build` says when it succeeds.
- The vector copy in Pick and the popcount variants of the counters: the word-by-word loop and the portable counters are modelled.
- The bit set `book` is an array of bools, and the index is assembled from bitmap and table as separate arrays before it becomes one byte sequence.
- SerializeMessage writes header and cells into the expanded buffer directly; the model builds them as one block and puts that in front.
- Parsing the arena bytes (ParseNode) and compiling plans in the host (compilePlan): trees are given as values, and `Arena.Formed` says what parsing guarantees. Decoding with a type that is reserved but not yet committed is not modelled.
- ArenaWriter.SerializeArrayNode: arrays that mix two-word scalars with other elements, and arrays with elements of kind none. The source accepts them (typescript/wasm/serialize_arena.cc:182-202, 298-300) and Mark may then write a two-word scalar into a one-word cell, or writes an offset without a target; those cells are not modelled. All other mixtures of element kinds are.
- ArenaWriter.SerializeMapNode: a map whose announced value kind is none, with values of that kind, cannot be expressed as a tree here; the source writes offsets without a target for them.
- Lazy serialization of messages whose fields are not listed by ascending id: `LazyWriter.Stored` excludes them, because copied extents may then be too short.
- The meaning of floats and UTF-8: floats are their words, strings their bytes.
- In lazy messages the cached value of a read field is given as the tree it was decoded to; modifying a cached value is not modelled. The in-memory hash map of MapEX is a list of entries. Arrays of scalars, which have no root call of their own, are treated like other array roots.
- What Decompress does after a store outside its buffer: the model stops there.
- Protobuf-backed code, the generators apart from Detect and Serialize, the Python extension, the pointer interface of the WebAssembly modules, allocation failure, files and JSON.
