# faster_redimension, modelled in Dafny

`faster_redimension` is a SciDB operator plugin. It moves the cells of an input
array into an output array with a different schema, where attributes may become
dimensions and dimensions may become attributes. It works in several passes:

- **Schema check.** The logical operator checks that every destination attribute
  and dimension can be derived from the source.
- **Field mapping.** The settings map every input field (attribute or dimension)
  to a slot of an intermediate "tuple".
- **Reading.** The reader walks the input array. It drops cells whose
  filtered-for-null fields are null. It routes each field to a tuple slot or to a
  coordinate of the output cell. It then stores a *tuple address* in the tuple:
  the destination instance, the output chunk position and the in-chunk cell
  position.
- **Pre-sort packing.** The tuples are packed into chunks bounded by a cell count
  and a byte budget, and sorted.
- **Redistribution.** The sorted tuples are repacked into chunks of a "tupled"
  array, one run per destination instance, and sent to those instances.
- **Global merge.** Every destination instance k-way merges the sorted streams it
  received and writes each tuple into the output array at the cell its address
  names.

The project models each of these pieces. Where a piece is expression-like it is a
function; where the program changes state step by step it is a method with loops,
or a class with fields. Each piece is proved against a specification function of
its inputs or old state.

| file | module | models |
|---|---|---|
| `common.dfy` | `Common` | byte, nullable `Value`, `Result`/`Option`, the error kinds the code throws |
| `bytes.dfy` | `Bytes` | little-endian `uint32`, `uint64` and two's-complement `int64` fields, and writes into a buffer |
| `coordinates.dfy` | `Coordinates` | runs of `int64` coordinates in a blob, and the key order (instance, coordinates, position) |
| `text.dfy` | `Text` | decimal text, `lexical_cast`, `trim` and splitting on `|` |
| `schema.dfy` | `Schema` | attribute and dimension descriptors and the name lookups on them |
| `redimension_tuple.dfy` | `RedimensionTuple` | `RedimensionTuple.h`: the tuple layout, make/decompose, comparisons |
| `redimension_tuple_functions.dfy` | `RedimensionTupleFunctions` | `RedimensionTuple.cpp`: the registered constructor, `<` and `=` |
| `tuple_address.dfy` | `TupleAddress` | `TupleAddress.h`: the address layout, its readers and comparisons |
| `tuple_address_functions.dfy` | `TupleAddressFunctions` | `TupleAddress.cpp`: the text converters and the checked `<` and `=` |
| `settings.dfy` | `FasterRedimensionSettings` | `FasterRedimensionSettings.h`: counts, tupled chunk size, the input-to-tuple map |
| `logical.dfy` | `LogicalFasterRedimension` | `LogicalFasterRedimension.cpp`: `inferSchema` |
| `array_reader.dfy` | `ArrayReading` | `ArrayReader` of `ArrayIO.h` |
| `array_writer.dfy` | `ArrayWriting` | `ArrayWriter` of `ArrayIO.h` |
| `chunk_packing.dfy` | `ChunkPacking` | `TupleDelegateArray` and `InputScannerChunkIterator` of `PhysicalFasterRedimension.cpp` |
| `global_merge.dfy` | `GlobalMerging` | `globalMerge` of `PhysicalFasterRedimension.cpp` |

Representation choices:

- Blobs are `seq<byte>`. The code reinterprets raw memory as `uint32_t`,
  `int64_t` or `uint64_t`; those fields are read and written as explicit
  little-endian byte groups, with two's complement for signed values.
- A SciDB `Value` is either null, with a missing reason, or present, with its
  bytes.
- A nullable attribute's missing-code byte stores the reason for a null value, and
  -1 (0xFF) for a present one.
- Exceptions the code throws become `Err` results.
- Reads past the end of a buffer, which are undefined in the code, are excluded by
  preconditions.
- The engine's placement functions are parameters of the reader and of the writer:
  - `getChunkPositionFor`;
  - the chunk-to-instance distribution;
  - the in-chunk cell position;
  - `getOutputCellCoords`.
- Arrays and chunks are modelled as sequences:
  - the input array is a sequence of chunks of cells;
  - the writer's output is the sequence of chunks it opened, each with the cells
    written to it;
  - the redistributed tupled array is, for each source instance, its sequence of
    chunks.

## Model

| member | source | states |
|---|---|---|
| RedimensionTuple.ComputeTupleSize | RedimensionTuple.h:54-74 | the size loop computes the key length plus, per attribute, the missing-code byte if nullable and, unless null, the fixed size or 4 + data length |
| RedimensionTuple.EncodedSize | RedimensionTuple.h:54-75 | the length of the blob written equals that size formula |
| RedimensionTuple.PutKey | RedimensionTuple.h:76-90 | writes nDims, the instance id, each chunk coordinate and the position at the front of the buffer and leaves the rest alone |
| RedimensionTuple.PutAttr | RedimensionTuple.h:92-119 | one attribute slot is written after the bytes already written, nothing else changes, and the offset moves past it |
| RedimensionTuple.PutBody | RedimensionTuple.h:106-119 | the value part: the data of a fixed-size attribute, else a 4-byte size then the data |
| RedimensionTuple.PutAttrs | RedimensionTuple.h:92-120 | the attribute loop leaves the key untouched and appends the encoding of every slot in order |
| RedimensionTuple.MakeRedimTuple | RedimensionTuple.h:44-121 | the fresh tuple holds exactly the layout's encoding of the first nDims chunk coordinates, the position and the values |
| RedimensionTuple.InstanceIdOfEncoded | RedimensionTuple.h:123-127 | `getInstanceId` of a made tuple is the instance id it was made with |
| RedimensionTuple.SetTuplePosition | RedimensionTuple.h:129-133 | overwrites exactly the 8 position bytes with the new position |
| RedimensionTuple.SetPositionDecodes | RedimensionTuple.h:129-189 | after `setTuplePosition`, decomposing yields the new position and every other field unchanged |
| RedimensionTuple.ReadAttr | RedimensionTuple.h:158-187 | one slot is read: a missing code >= 0 gives a null with that reason, otherwise the fixed-size or sized data |
| RedimensionTuple.ReadAttrs | RedimensionTuple.h:158-188 | the attribute loop reads every slot in order from the given offset |
| RedimensionTuple.DecomposeTuple | RedimensionTuple.h:135-189 | reads instance id, nDims chunk coordinates, position and the values back, as the parse of the blob |
| RedimensionTuple.ParseAttrEncoded | RedimensionTuple.h:92-119 | a slot written by the make loop reads back as the same value, wherever it sits in a blob |
| RedimensionTuple.BodyEncoded | RedimensionTuple.h:106-119 | the value part written reads back as the same data |
| RedimensionTuple.ParseAttrsEncoded | RedimensionTuple.h:92-120 | every slot written reads back, in order |
| RedimensionTuple.RoundTrip | RedimensionTuple.h:44-189 | decomposing a made tuple with the same metadata returns every field that was encoded, nulls with their reason |
| RedimensionTuple.NullSlotIsOneByte | RedimensionTuple.h:95-104 | a null of a nullable attribute takes only its one missing-code byte |
| RedimensionTuple.KeyFieldsEncoded | RedimensionTuple.h:76-90 | the key fields read back from any blob that starts with their encoding |
| RedimensionTuple.KeyOfEncoded | RedimensionTuple.h:44-90 | the key read from a made tuple is the key it was made from |
| RedimensionTuple.RedimTupleLessIsKeyLess | RedimensionTuple.h:191-236 | on tuples of one nDims `redimTupleLess` is the order on (unsigned instance, signed coordinates, signed position) |
| RedimensionTuple.RedimTupleLessFailsIff | RedimensionTuple.h:193-199 | the comparison throws exactly when the two nDims bytes differ |
| RedimensionTuple.RedimTupleEqualIsKeyEqual | RedimensionTuple.h:238-244 | `redimTupleEqual` holds exactly when the keys agree, whatever the payloads |
| RedimensionTuple.EqualNeverLess | RedimensionTuple.h:191-244 | tuples called equal are not less than one another in either direction |
| RedimensionTuple.LessIgnoresPayload | RedimensionTuple.h:191-236 | bytes after the key never change the comparison |
| RedimensionTuple.RedimTupleLessStrictOrder | RedimensionTuple.h:191-236 | the comparison is irreflexive and transitive on tuples of one nDims |
| RedimensionTuple.KeyOfPrefix | RedimensionTuple.h:238-243 | the key is read from the first `comparableSize` bytes alone |
| RedimensionTuple.GetInstanceId | RedimensionTuple.h:123-127 | `getInstanceId` reads a 32-bit unsigned id at offset 1; `InstanceIdOfEncoded` shows it is the id a tuple was made with |
| RedimensionTuple.RedimTupleLess | RedimensionTuple.h:191-236 | throws `MalformedTupleComparison` exactly when the nDims bytes differ; otherwise a lower instance id always comes first and a tuple is never below one of a lower instance id |
| RedimensionTuple.RedimTupleEqual | RedimensionTuple.h:238-244 | every tuple equals itself, and equal tuples share the nDims byte and the instance id |
| RedimensionTupleFunctions.DefaultRedimTuple | RedimensionTuple.cpp:153-156 | the registered default constructor yields a null |
| RedimensionTupleFunctions.CheckArgs | RedimensionTuple.cpp:160-167 | nulls are rejected first, then an empty operand, and nothing else; sizes are not compared |
| RedimensionTupleFunctions.RedimTupleLessThan | RedimensionTuple.cpp:158-169 | the checked `<` errs as the checks say and otherwise is `redimTupleLess` |
| RedimensionTupleFunctions.RedimTupleEqualThan | RedimensionTuple.cpp:171-182 | the checked `=` errs as the checks say and otherwise is `redimTupleEqual` |
| RedimensionTupleFunctions.LessThanFailures | RedimensionTuple.cpp:158-169 | the checked `<` fails exactly on a null, an empty operand or differing nDims, and names which |
| RedimensionTupleFunctions.UnequalSizesAccepted | RedimensionTuple.cpp:164-181 | tuples that differ only after the key pass the checks: `=` holds and `<` holds in neither direction |
| RedimensionTupleFunctions.LessThanOrdersKeys | RedimensionTuple.cpp:158-182 | on readable tuples of one nDims the checked `<` and `=` are the key order and key equality |
| TupleAddress.MakeTupleAddress | TupleAddress.h:39-53 | the fresh address holds the instance id, the first nDims chunk coordinates and the position |
| TupleAddress.GetChunkPos | TupleAddress.h:61-71 | copies the nDims coordinates after the instance id |
| TupleAddress.AddressRoundTrip | TupleAddress.h:39-84 | the three readers return what `makeTupleAddress` was given |
| TupleAddress.AddressBytes | TupleAddress.h:39-84 | every address of the right size is the encoding of the key it reads as |
| TupleAddress.TupleAddressLessIsKeyLess | TupleAddress.h:86-123 | on addresses of one size `tupleAddressLess` is the key order, position signed |
| TupleAddress.TupleAddressLessIrreflexive | TupleAddress.h:86-123 | no address of 12 bytes or more is less than itself |
| TupleAddress.TupleAddressEqualIsKeyEqual | TupleAddress.h:125-128 | byte equality over the left size is equality of keys |
| TupleAddress.EqualNeverLess | TupleAddress.h:86-128 | equal addresses are not less than one another |
| TupleAddress.GetInstanceId | TupleAddress.h:55-59 | the first 4 bytes read as a 32-bit unsigned instance id |
| TupleAddress.GetCellPos | TupleAddress.h:73-84 | the 8 bytes after the nDims coordinates read as a signed 64-bit position |
| TupleAddress.TupleAddressLess | TupleAddress.h:86-123 | a lower instance id always comes first, and an address is never below one of a lower instance id |
| TupleAddress.TupleAddressEqual | TupleAddress.h:125-128 | on addresses of one size, equal exactly when the bytes are; equal addresses share the instance id |
| TupleAddressFunctions.DefaultTupleAddress | TupleAddress.cpp:43-46 | the registered default constructor yields a null |
| TupleAddressFunctions.ToStringCorrected | TupleAddress.cpp:48-78 | the printer with the missing size check: 4-byte values are refused, every other value behaves as written |
| TupleAddressFunctions.TupleAddressToString | TupleAddress.cpp:48-78 | the printer's checks, the instance, each coordinate and `|`, the position as `uint64_t`, refusing a 4-byte value |
| TupleAddressFunctions.StreamCoords | TupleAddress.cpp:70-74 | the coordinate loop appends each coordinate's text and `|` in order |
| TupleAddressFunctions.NullPassesThrough | TupleAddress.cpp:51-87 | both converters map a null to a null with the same reason |
| TupleAddressFunctions.ToStringOutcome | TupleAddress.cpp:56-63 | the printer fails with the zero-size error exactly on an empty value and the size error exactly on a size not 4 plus a multiple of 8 |
| TupleAddressFunctions.FourBytesPassPrinterChecks | TupleAddress.cpp:56-64 | a lone instance id such as `7` parses into 4 bytes, which pass the printer's checks but hold no position (as written) |
| TupleAddressFunctions.ParsedValuesPrint | TupleAddress.cpp:56-113 | with the check added, every parsed value prints exactly when it holds a position and is refused when it is 4 bytes |
| TupleAddressFunctions.CastFields | TupleAddress.cpp:99-102 | every token after the first is cast to `int64_t` in order, the first failure ending the parse |
| TupleAddressFunctions.WriteFields | TupleAddress.cpp:103-112 | the result holds the instance id, then every pushed int64 |
| TupleAddressFunctions.StringToTupleAddress | TupleAddress.cpp:81-113 | trims, splits on `|`, casts the instance id and the fields, and writes them, as `FromStringSpec` |
| TupleAddressFunctions.ParseAddressText | TupleAddress.cpp:81-113 | every value the parser produces is 4 bytes plus whole 8-byte fields |
| TupleAddressFunctions.TextRoundTrip | TupleAddress.cpp:48-113 | parsing the printed text of an address whose position is below 2^63 gives back the same bytes |
| TupleAddressFunctions.NegativePositionDoesNotRoundTrip | TupleAddress.cpp:75-101 | a negative position prints as a `uint64_t` of at least 2^63 and then fails the `int64_t` cast |
| TupleAddressFunctions.CheckedComparisonErrors | TupleAddress.cpp:115-176 | both checked comparisons reject nulls, then unequal or empty sizes, and nothing else |
| TupleAddressFunctions.LessThanIsUnsignedKeyLess | TupleAddress.cpp:125-165 | on addresses of one size the checked `<` is the key order with the position unsigned |
| TupleAddressFunctions.OrdersAgreeOnNonNegativePositions | TupleAddress.cpp:125-165 | with non-negative positions the checked `<` equals `tupleAddressLess` of the header |
| TupleAddressFunctions.OrdersDifferOnNegativePosition | TupleAddress.cpp:159-163 | with instance and coordinates equal, a negative position comes first in the header's order and last in the checked `<` |
| TupleAddressFunctions.EqualNeverLess | TupleAddress.cpp:115-178 | addresses the checked `=` calls equal are not less than one another under the checked `<` |
| TupleAddressFunctions.TupleAddressLessThan | TupleAddress.cpp:115-165 | fails exactly on a null, unequal sizes or an empty value; otherwise a lower instance id comes first and never after |
| TupleAddressFunctions.TupleAddressEqual | TupleAddress.cpp:167-178 | fails exactly on a null, unequal sizes or an empty value; otherwise true exactly when the two values are the same |
| FasterRedimensionSettings.TupledChunkSize | FasterRedimensionSettings.h:83 | the tupled chunk size is at most 1000000, exactly 1000000 below ten fields, and positive below ten million fields |
| FasterRedimensionSettings.QuotientBelowHalf | FasterRedimensionSettings.h:83 | dividing 1000000 by at least 2 halves it or more, and leaves 0 only beyond 1000000 |
| FasterRedimensionSettings.Settings.constructor | FasterRedimensionSettings.h:73-90 | counts without the empty tag, tuple size 1 + 2D + A, the chunk size, and the filled map `MapToTuple` (line 110 corrected, see Findings) |
| FasterRedimensionSettings.Settings.MapInputToOutput | FasterRedimensionSettings.h:101-149 | the map becomes one slot per input attribute, then one per input dimension, as `MapToTuple` (line 110 corrected, see Findings) |
| FasterRedimensionSettings.FillMap | FasterRedimensionSettings.h:103-148 | the two loops over the map of -1s compute `MapToTuple` (line 110 corrected, see Findings) |
| FasterRedimensionSettings.MapAttr | FasterRedimensionSettings.h:105-124 | an input attribute's slot: the first output attribute of its name, else the first output dimension of that name, else -1 (line 110 corrected, see Findings) |
| FasterRedimensionSettings.MapDim | FasterRedimensionSettings.h:128-147 | an input dimension's slot: the first output attribute it goes by, else the first output dimension by base name, else -1 |
| FasterRedimensionSettings.MapToTuple | FasterRedimensionSettings.h:101-149 | one entry per input attribute then per input dimension, each that field's slot (line 110 corrected, see Findings) |
| FasterRedimensionSettings.SlotsWithinTuple | FasterRedimensionSettings.h:112-144 | every slot the map names is -1 or lies in the dimension or attribute part of the tuple |
| FasterRedimensionSettings.AttrSlotMeaning | FasterRedimensionSettings.h:103-124 | an input attribute is used exactly when an output field goes by its name, and lands on a dimension exactly when only a dimension does (line 110 corrected, see Findings) |
| FasterRedimensionSettings.DimSlotMeaning | FasterRedimensionSettings.h:126-147 | the same for an input dimension, matched by its names |
| FasterRedimensionSettings.AttrSlotIsFirstMatch | FasterRedimensionSettings.h:107-115 | an attribute slot is the first output attribute of that name (line 110 corrected, see Findings) |
| FasterRedimensionSettings.AttrAccessorsMeaning | FasterRedimensionSettings.h:188-196 | `isInputFieldUsed` and `isInputFieldMappedToDimension` for an input attribute, in terms of the names (line 110 corrected, see Findings) |
| FasterRedimensionSettings.DimAccessorsMeaning | FasterRedimensionSettings.h:188-196 | the same two accessors for an input dimension |
| FasterRedimensionSettings.Settings.IsInputFieldUsed | FasterRedimensionSettings.h:188-191 | for a constructed settings object, a field is used exactly when its slot lies in the dimension or attribute part of the tuple |
| FasterRedimensionSettings.Settings.IsInputFieldMappedToDimension | FasterRedimensionSettings.h:193-196 | a field mapped to a dimension is used, and for a constructed settings object its slot lies in the output dimension part |
| FasterRedimensionSettings.AsWrittenIgnoresNames | FasterRedimensionSettings.h:107-115 | as written, every input attribute goes to the first output attribute slot whenever there is one |
| FasterRedimensionSettings.AsWrittenMisroutes | FasterRedimensionSettings.h:110 | an input `v` with only an output `w` is routed to `w` as written, and left unused when matched by name |
| FasterRedimensionSettings.AttrSlotAsWritten | FasterRedimensionSettings.h:105-124 | the attribute pass as written (the as-written half of a Findings row): its slot is -1 or inside the tuple, and agrees with the corrected `AttrSlot` when the output has no attributes |
| FasterRedimensionSettings.MapToTupleAsWritten | FasterRedimensionSettings.h:101-149 | the map as written: one entry per input field, equal to the corrected `MapToTuple` on every input dimension, and everywhere when the output has no attributes |
| LogicalFasterRedimension.InferSchema | LogicalFasterRedimension.cpp:43-150 | the empty-bitmap check, the attribute loop and the dimension loop compute `InferSchemaSpec` |
| LogicalFasterRedimension.AttrCheck | LogicalFasterRedimension.cpp:57-105 | a destination attribute passes only if derivable: a source attribute of its name with its type and no nullable-into-non-nullable, else an int64 from a source dimension of its name, else it is the empty-cell indicator |
| LogicalFasterRedimension.DimCheck | LogicalFasterRedimension.cpp:110-142 | a destination dimension passes only if its overlap fits its interval and it comes from an integral, non-uint64 source attribute it goes by or from a source dimension of its base name |
| LogicalFasterRedimension.InferSchemaSpec | LogicalFasterRedimension.cpp:43-150 | no empty-cell indicator gives the redimension error; a result has the source's name and the destination's attributes and dimensions |
| LogicalFasterRedimension.CheckDstAttr | LogicalFasterRedimension.cpp:57-105 | one destination attribute's checks, as `AttrCheck` |
| LogicalFasterRedimension.CheckDstDim | LogicalFasterRedimension.cpp:110-142 | one destination dimension's checks, as `DimCheck` |
| LogicalFasterRedimension.OverlapAtLeastOne | LogicalFasterRedimension.cpp:112 | the value passed for an automatic interval is at least 1 and at least the overlap |
| LogicalFasterRedimension.Accepted | LogicalFasterRedimension.cpp:50-149 | accepted exactly when there is an empty-cell indicator and every attribute and dimension passes; the result has the source's name and the destination's fields |
| LogicalFasterRedimension.AttrRulesReject | LogicalFasterRedimension.cpp:62-103 | each attribute rejection rule rejects the schema |
| LogicalFasterRedimension.DimRulesReject | LogicalFasterRedimension.cpp:112-140 | each dimension rejection rule rejects the schema |
| LogicalFasterRedimension.NoEmptyBitmapRejected | LogicalFasterRedimension.cpp:50-53 | no empty-cell indicator means the redimension error, before any other check |
| LogicalFasterRedimension.AutoIntervalFitsOverlap | LogicalFasterRedimension.cpp:112-116 | an automatic interval never fails the overlap check |
| ArrayReading.ArrayReader.constructor | ArrayIO.h:73-116 | opens the iterators and stands on the first qualifying cell; what is left to surface is every qualifying cell |
| ArrayReading.ArrayReader.SetAndCheckTuple | ArrayIO.h:119-170 | the current cell yields a tuple exactly when it qualifies, and then the fields show it routed |
| ArrayReading.SetAndCheck | ArrayIO.h:119-170 | the same on values: the routed tuple, cell position, chunk position, instance, in-chunk position and address |
| ArrayReading.RouteFields | ArrayIO.h:121-144 | fields are routed in order and routing stops at the first null filter-null field |
| ArrayReading.RouteOne | ArrayIO.h:125-137 | a slot gets the value and a coordinate the int64 it holds; every other destination is left alone |
| ArrayReading.RouteDimensions | ArrayIO.h:149-163 | every dimension read is routed in order, a slot getting the coordinate as an int64 |
| ArrayReading.PlaceInput | ArrayIO.h:149-168 | the output cell's chunk, instance and in-chunk position come from the host, and the address built from them fills the last slot |
| ArrayReading.CopyFields | ArrayIO.h:140-143 | in READ_TUPLED mode the tuple is the cell's fields |
| ArrayReading.ArrayReader.FindNextTupleInChunk | ArrayIO.h:172-186 | stops on the first qualifying cell of the chunk, skipping only cells that do not qualify |
| ArrayReading.ArrayReader.ScanChunks | ArrayIO.h:211-225 | opens chunks in turn until one yields a tuple; the qualifying cells left are unchanged |
| ArrayReading.ArrayReader.Advance | ArrayIO.h:196-225 | a later call drops exactly the current cell from what is left |
| ArrayReading.ArrayReader.Next | ArrayIO.h:190-226 | fails once ended, leaving the reader alone; otherwise drops the current cell from what is left |
| ArrayReading.ArrayReader.GetTuple | ArrayIO.h:233-240 | fails exactly when the reader has ended |
| ArrayReading.FilterCellsMembers | ArrayIO.h:172-186 | the cells surfaced are exactly the qualifying ones |
| ArrayReading.AttrLandsInSlot | ArrayIO.h:131-137 | an attribute routed to a slot no later field writes leaves its value there |
| ArrayReading.AttrLandsInCoord | ArrayIO.h:125-130 | an attribute routed to a coordinate no later field writes leaves its int64 there |
| ArrayReading.DimLandsInSlot | ArrayIO.h:149-163 | a dimension routed to a slot leaves its coordinate there as an int64 |
| ArrayReading.DimLandsInCoord | ArrayIO.h:149-163 | a dimension routed to a coordinate copies it there |
| ArrayReading.DimsFrame | ArrayIO.h:149-163 | routing the dimensions leaves every other destination alone |
| ArrayReading.ReaderAttrSlot | ArrayIO.h:121-144 | the reader's tuple shows an attribute routed to a slot in that slot |
| ArrayReading.ReaderAttrCoord | ArrayIO.h:121-144 | an attribute routed to a coordinate gives that coordinate its int64 |
| ArrayReading.ReaderDimSlot | ArrayIO.h:149-163 | a dimension routed to a slot shows there as an int64 |
| ArrayReading.ReaderDimCoord | ArrayIO.h:149-163 | a dimension routed to a coordinate is copied there |
| ArrayReading.ReaderAddressSlot | ArrayIO.h:164-168 | the last slot holds the address of the output cell: its chunk's instance, the chunk position and the in-chunk position |
| ArrayReading.ReaderTupledCopies | ArrayIO.h:140-143 | in READ_TUPLED mode the tuple is the current cell's fields in order |
| ArrayReading.ReaderCurrentIsNext | ArrayIO.h:189-231 | ended exactly when nothing is left; otherwise the current cell is the first left, and it qualifies |
| ArrayWriting.ArrayWriter.constructor | ArrayIO.h:274-300 | no chunk open; the numbering modes start at (0, 0, this instance) |
| ArrayWriting.ArrayWriter.WriteTuple | ArrayIO.h:302-365 | the new state is one `Step`, or on a collision an error with the state unchanged, and the writer's invariant holds |
| ArrayWriting.ArrayWriter.Finalize | ArrayIO.h:367-381 | the array written is the chunks opened, with their cells |
| ArrayWriting.WriteNumbered | ArrayIO.h:305-365 | the numbering modes' `writeTuple` computes `NumberedStep` |
| ArrayWriting.WriteAtOutput | ArrayIO.h:322-360 | WRITE_OUTPUT mode's `writeTuple` computes `OutputStep` |
| ArrayWriting.PutCell | ArrayIO.h:343-360 | opens a chunk when asked, then adds the cell with every attribute and `true` for the empty tag to the last chunk |
| ArrayWriting.Emit | ArrayIO.h:343-360 | a new chunk holds just the cell; otherwise only the last chunk changes, gaining the cell |
| ArrayWriting.StepKeepsInv | ArrayIO.h:302-365 | every successful write keeps the writer's invariant |
| ArrayWriting.NumberedOpens | ArrayIO.h:305-321 | a write that opens a chunk keeps the numbering invariant |
| ArrayWriting.NumberedAppends | ArrayIO.h:354-364 | a write that opens no chunk adds the next cell to a chunk with room |
| ArrayWriting.OutputStepKeepsInv | ArrayIO.h:322-342 | in WRITE_OUTPUT mode a successful write keeps its invariant |
| ArrayWriting.NumberedWrite | ArrayIO.h:317-364 | without an instance switch: never fails, writes the attributes and `true` at the position, steps value_no, and opens a chunk exactly at multiples of the chunk size |
| ArrayWriting.SwitchRestarts | ArrayIO.h:305-316 | a tuple for another instance opens a chunk at (0, that instance, this instance) and restarts the numbering |
| ArrayWriting.OutputWrite | ArrayIO.h:322-342 | fails with a data collision exactly on a repeat of the cell just written in the same chunk; otherwise writes there, opening a chunk on the first write or a change of chunk |
| ArrayWriting.OutputPlacesAtAddress | ArrayIO.h:322-341 | a tuple whose address `makeTupleAddress` built lands in the chunk and cell that address names |
| ArrayWriting.WrittenChunks | ArrayIO.h:302-365 | numbering modes: each chunk holds 1..chunkSize cells at consecutive value_no; WRITE_OUTPUT: no chunk holds two successive writes to one cell |
| ChunkPacking.FillDataChunk | PhysicalFasterRedimension.cpp:92-110 | the data loop takes `Packed` tuples and writes them at consecutive positions |
| ChunkPacking.FillBitmapChunk | PhysicalFasterRedimension.cpp:112-121 | the bitmap loop writes `true` at as many consecutive positions |
| ChunkPacking.PackChunk | PhysicalFasterRedimension.cpp:90-124 | the data and bitmap chunks of one `moveNext` mark the same cells, and a positive room and budget always make progress |
| ChunkPacking.TupleDelegateArray.constructor | PhysicalFasterRedimension.cpp:55-77 | the first chunk address is (-chunkSize, first tuple's instance when tupled, this instance) |
| ChunkPacking.TupleDelegateArray.MoveNext | PhysicalFasterRedimension.cpp:84-133 | false once the reader ends; otherwise the next packed chunk at chunkSize times the run so far, restarting at 0 when the destination instance changes |
| ChunkPacking.TupleDelegateArray.GetChunk | PhysicalFasterRedimension.cpp:135-146 | attribute 0 gives the data chunk, attribute 1 the bitmap chunk, and any other attribute an internal inconsistency |
| ChunkPacking.PackedBounds | PhysicalFasterRedimension.cpp:99-100 | a chunk never takes more tuples than it has room for or the reader has left |
| ChunkPacking.PackedBudget | PhysicalFasterRedimension.cpp:99-103 | the budget is checked before a tuple is taken, so only the last tuple may overshoot it |
| ChunkPacking.PackedMaximal | PhysicalFasterRedimension.cpp:99-100 | a chunk stops early, with room and a next tuple of its instance, only because the budget is spent |
| ChunkPacking.PackedSameInstance | PhysicalFasterRedimension.cpp:99-100 | in tupled mode every tuple of a chunk goes to the chunk's instance |
| ChunkPacking.PackedProgress | PhysicalFasterRedimension.cpp:99-109 | with positive room and budget a chunk takes at least one tuple |
| ChunkPacking.PackFromStops | PhysicalFasterRedimension.cpp:99-109 | the loop stops at the first tuple where its condition fails |
| ChunkPacking.DataAndBitmapAgree | PhysicalFasterRedimension.cpp:104-121 | the bitmap marks every data cell and nothing else |
| ChunkPacking.EmittedChunk | PhysicalFasterRedimension.cpp:90-121 | one chunk: at most chunkSize cells in reader order within its value_no range, of one instance when tupled, bitmap matching |
| ChunkPacking.InputScannerChunkIterator.constructor | PhysicalFasterRedimension.cpp:161-168 | starts with no cells or bytes counted, at the shared reader's position |
| ChunkPacking.InputScannerChunkIterator.GetItem | PhysicalFasterRedimension.cpp:175-178 | the reader's current tuple, failing once the reader has ended |
| ChunkPacking.InputScannerChunkIterator.Increment | PhysicalFasterRedimension.cpp:180-185 | counts the cell, then charges the tuple's size plus `sizeof(Value)` and moves the reader |
| ChunkPacking.ScannerChunkIsPacked | PhysicalFasterRedimension.cpp:180-190 | a pre-sort chunk ends after exactly the tuples the delegate's packing rule would take with the same limits |
| ChunkPacking.ScannerEndMatches | PhysicalFasterRedimension.cpp:187-190 | the iterator's `end` agrees with that count |
| GlobalMerging.OpenCursors | PhysicalFasterRedimension.cpp:367-384 | a cursor on every source's chunk at value_no 0, closed and counted when the source sent nothing |
| GlobalMerging.PickMin | PhysicalFasterRedimension.cpp:387-401 | the chosen cursor's tuple is not above any open cursor's, and it is strictly below those of lower index |
| GlobalMerging.StepCursor | PhysicalFasterRedimension.cpp:403-417 | the cursor steps, seeking the next chunk at value_no + chunkSize and closing when none is stored; its rest loses its first tuple |
| GlobalMerging.AdvanceCursor | PhysicalFasterRedimension.cpp:403-417 | the same within the merge's state, the closed count kept exact and other cursors untouched |
| GlobalMerging.MergeRound | PhysicalFasterRedimension.cpp:387-417 | one round writes the minimum, keeps the merge invariant and shrinks what is left |
| GlobalMerging.GlobalMerge | PhysicalFasterRedimension.cpp:359-420 | every tuple sent is written exactly once, and the output is sorted when every source's stream is |
| GlobalMerging.ChunkAtValueIndex | PhysicalFasterRedimension.cpp:406-407 | seeking value_no k times chunkSize finds a source's k-th chunk, or nothing past its last |
| GlobalMerging.PrecedesIsKeyLess | PhysicalFasterRedimension.cpp:396 | on tuples of one nDims the merge's comparison is the key order |
| GlobalMerging.SortedPairwise | PhysicalFasterRedimension.cpp:385-418 | a stream sorted step by step has no tuple below an earlier one |
| GlobalMerging.FactsStep | PhysicalFasterRedimension.cpp:402-403 | writing the minimum and stepping its cursor keeps "written plus left is everything" |
| GlobalMerging.SortedStep | PhysicalFasterRedimension.cpp:396-403 | with sorted streams, writing the minimum keeps the output sorted and no open cursor below it |
| GlobalMerging.MergeDone | PhysicalFasterRedimension.cpp:385 | with every cursor closed, the output is every tuple sent, sorted when the streams are |
| Bytes.U32RoundTrip | RedimensionTuple.h:79-80 | a 32-bit unsigned field reads back as written |
| Bytes.I64RoundTrip | RedimensionTuple.h:82-89 | a 64-bit signed field reads back as written |
| Bytes.I64AgreesWithU64Below | TupleAddress.cpp:75-76 | a signed and an unsigned read of the same 8 bytes agree below 2^63 |
| Coordinates.CoordsAtEncoded | RedimensionTuple.h:83-87 | coordinates written one after another read back in order |
| Coordinates.KeyLessTransitive | RedimensionTuple.h:204-235 | the key order is transitive |
| Coordinates.KeyLessTrichotomy | RedimensionTuple.h:204-235 | of two different keys, one is below the other |
| Text.CastI64OfFormat | TupleAddress.cpp:101 | `lexical_cast<int64_t>` of a number's decimal text gives it back |
| Text.CastU32OfFormat | TupleAddress.cpp:97 | `lexical_cast<uint32_t>` of a 32-bit number's decimal text gives it back |

## Left out

- Host storage is not modelled. SciDB's `MemArray`, `MemChunk` and iterators,
  chunk flushing, and the pointer-to-value indirection are replaced by sequences
  of chunks and cells.
- `sortArray` (the engine's `SortArray`) and `redistributeToRandomAccess` are
  engine calls. The merge takes their output as given: per-source sequences of
  chunks, each source's stream assumed sorted in the sortedness half of its
  contract.
- `arrayPass`, `execute` and the `InputScannerArray`/`InputScannerArrayIterator`/
  `InputScannerChunk` wrappers only forward to the modelled pieces and throw on
  the other calls. The iterator over one pre-sort chunk is modelled.
- The engine's placement functions are parameters: `getChunkPositionFor`, the
  hashed distribution, the in-chunk cell position and `getOutputCellCoords`.
- `makeTupledSchema`, `makePreSortSchema` and the other schema-building methods of
  the settings are not modelled. Nor are `logSettings`, the logging, and the
  parameter counts.
- Query objects, instance counts from the engine, arenas and threading are not
  modelled.
- GlobalMerging.GlobalMerge: returns the sequence of tuples it hands to the
  WRITE_OUTPUT writer rather than running the writer on them. The writer's own
  behaviour on such tuples is `ArrayWriting.OutputWrite`.
- GlobalMerging.GlobalMerge: assumes the store is well formed:
  - a positive chunk size;
  - no empty stored chunk;
  - tuples of one nDims (the engine's sort and the tupled writer provide these).
- ChunkPacking.TupleDelegateArray.MoveNext: counts positions with unbounded
  integers. The source's `size_t` counters cannot wrap at realistic sizes.
- ArrayReading.ArrayReader.constructor: requires well-formed cells, because the
  source reads them without checks. Concretely:
  - `getInt64` only on present 8-byte values;
  - indices within the vectors.
- RedimensionTuple.MakeRedimTuple: requires each value to fit its attribute's
  layout, because the source copies `attrSizes[i]` bytes without a check.
- RedimensionTuple.DecomposeTuple: requires that the blob is long enough for what
  is read. The source reads past the end otherwise.
- FasterRedimensionSettings.Settings.constructor, Settings.MapInputToOutput, FillMap and
  MapAttr compute the map with line 110 of FasterRedimensionSettings.h corrected (see
  Findings). The map as written is `MapToTupleAsWritten`, and the rest of the model
  does not use it.
- ChunkPacking.TupleDelegateArray.MoveNext and InputScannerChunkIterator.Increment read
  an abstract stream of tuples, each one blob, and `ArrayReading.ArrayReader` is not
  connected to them. PhysicalFasterRedimension.cpp:74-183 uses the reader's `getTuple()`
  as one `Value const*`, while ArrayIO.h:233 declares it to return a
  `vector<Value const*>`. The model follows the callers.
- ArrayWriting.ArrayWriter.constructor: requires a positive chunk size in the numbering
  modes. The source takes `getTupledChunkSize()` as it comes (ArrayIO.h:280), which is 0
  at ten million output fields or more (`TupledChunkSize`), and `% _chunkSize` at
  ArrayIO.h:317 then divides by zero. The model does not cover that case.
- LogicalFasterRedimension.InferSchema / InferSchemaSpec: the result's distribution
  (`createDistribution(psUndefined)`), its residency (`getDefaultArrayResidency()`) and
  the destination's flags (LogicalFasterRedimension.cpp:144-149) are not modelled;
  `ArraySchema` carries only the name, attributes and dimensions.
- TupleAddressFunctions.TupleAddressToString refuses 4-byte values, the correction of
  TupleAddress.cpp:56-64 (see Findings). As written, such a value passes the size
  checks; that behaviour is `FourBytesPassPrinterChecks`, and the rest of the model
  does not use it.
- The memory layout of a SciDB `Value` beyond its size, data and missing reason is
  not modelled.

## Findings

| source | as written | input that shows it | evidently intended | confidence | as-written member | corrected member |
|---|---|---|---|---|---|---|
| TupleAddress.cpp:56-64 | the size checks accept a 4-byte value, and `numCoords = (4 - 4) / 8 - 1` wraps around to 2^64 - 1, so the coordinate loop reads far past the value | `string_to_tuple_address('7')` yields the 4 bytes of instance 7, which `tuple_address_to_string` then accepts | a value without a position (size below 12) is refused like any other improperly sized address | not executed | TupleAddressFunctions.FourBytesPassPrinterChecks | TupleAddressFunctions.ParsedValuesPrint |
| FasterRedimensionSettings.h:110 | the attribute pass compares `inputAttr.getName()` with itself, so the first output attribute is taken for every input attribute whenever the output has one | input attribute `v`, output attribute `w`: `v` is routed to `w`'s slot | compare with `outputAttr.getName()`, so that an attribute fills the slot of the output attribute of its own name | not executed | FasterRedimensionSettings.AsWrittenMisroutes | FasterRedimensionSettings.MapToTuple |
