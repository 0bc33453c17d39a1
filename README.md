# telemetryplot: a Dafny model of the `.ibt` decoder

telemetryplot reads an iRacing `.ibt` telemetry capture into memory and walks
it in `parse` (main.go). The walk has these stages:

1. It decodes the 56-byte `TelemetryHeader` from the first 112 bytes.
2. It decodes the 32-byte `DiskHeader` from bytes 112..144.
3. It copies the session-info block.
4. It reads `NumVars` 144-byte variable records.
5. It builds a name table from every record except record 0. The key is the record's lowercased `Name()`.
6. It walks the fixed-size frames at `BufOffset + k * BufLen`.
7. From each frame it reads five channels at the offsets the name table gives: `lap`, `sessiontime`, `speed`, `throttle` and `brake`.

This project models each stage in Dafny and proves what the code guarantees.

Modules, one per file, in dependency order:

- `Errors` (errors.dfy) has the error kinds and `Result`. Every Go slice panic and every `log.Fatal` of a decoding stage of `parse` becomes an `Err` naming the stage that failed. The `log.Fatal` after `os.Create` (main.go:121-124) belongs to the trace-file I/O, which is left out.
- `LittleEndian` (little_endian.dfy) turns bytes into numbers, as `binary.LittleEndian` does:
  - unsigned values of any width;
  - two's-complement `int32` and `int8`;
  - the encoders and round trips in both directions.
- `Headers` (headers.dfy) decodes and encodes both headers, with round trips, and bounds the session-info block.
- `VarRecords` (var_records.dfy) covers:
  - the 144-byte record;
  - the NUL-stripping `Name`, `Description` and `Unit` accessors;
  - `ReadVarHeaders`, the counted loop that appends records.
- `NameTable` (name_table.dfy) has `BuildVarMap`, the loop that fills the map, and `TableOf`, the map it must produce.
- `Frames` (frames.dfy) has `WalkFrames`, the unbounded frame loop. It is proved equal to the recursive `Walk`, and the frame positions, frame count and per-frame samples are proved about `Walk`.
- `Parser` (parse.dfy) has `Parse`, all stages in program order.
- `SliceCapacity` (slice_capacity.dfy) states how the program's channel reads are really bounded: by the capacity of the frame slice, which reaches to the end of the capture.

The loops of `parse` are methods with loop invariants, each proved equal to a pure function. Everything else is a function.

Bytes are integers in 0..255. Float values are kept as their raw little-endian bytes: the `DiskHeader` times as the 64-bit unsigned value, the channels as the byte windows read. Map keys are strings with one character per byte.

## Model

| member | source | states |
|---|---|---|
| LittleEndian.Int32 | main.go:23-39 | A four-byte field read as an int32 always lies in [-2^31, 2^31) |
| LittleEndian.Int32Unsigned | main.go:139-144 | The int32 read equals b0 + 256 b1 + 65536 b2 + 16777216 b3, minus 2^32 exactly when b3 >= 128; it is negative exactly then |
| LittleEndian.Int32OfEncode | main.go:139-144 | Encoding any int32 into four little-endian bytes and decoding them returns the same value |
| LittleEndian.EncodeOfInt32 | main.go:23-39 | Every four-byte pattern is the encoding of the int32 decoded from it |
| LittleEndian.Unsigned | main.go:82-89 | The little-endian unsigned value of n bytes is below 256^n; UnsignedOfBytes and BytesOfUnsigned prove it inverse to Bytes |
| LittleEndian.Bytes | main.go:82-89 | The n-byte little-endian encoding has exactly n bytes; UnsignedOfBytes and BytesOfUnsigned prove it inverse to Unsigned |
| LittleEndian.UnsignedOfBytes | main.go:41-47 | Writing a value below 256^n as n little-endian bytes and reading them back returns it |
| LittleEndian.BytesOfUnsigned | main.go:41-47 | Every n-byte pattern is the n-byte encoding of its unsigned value |
| LittleEndian.Int8 | main.go:54 | The int8 read of a byte lies in [-128, 128) and is negative exactly when the byte is >= 128 |
| LittleEndian.EncodeInt8 | main.go:54 | Encoding an int8 gives a byte that decodes back to it |
| LittleEndian.EncodeOfInt8 | main.go:54 | Every byte is the encoding of its int8 value |
| Headers.DecodeTelemetryHeader | main.go:72-79 | Decoding succeeds exactly when the capture holds at least 112 bytes; otherwise the error is HeaderOutOfRange; every decoded field is an int32 |
| Headers.DecodeEncodeTelemetryHeader | main.go:23-39 | A header encoded at offsets 0..40 and 52..56, whatever the 12 skipped bytes and any trailing bytes, decodes to itself |
| Headers.EncodeDecodeTelemetryHeader | main.go:23-39 | Each field comes from its own four bytes: re-encoding the decoded header with bytes 40..52 rebuilds bytes 0..56 of the capture |
| Headers.EncodeInPlace | main.go:23-39 | A header whose every field encodes to the bytes at its offset, together with the skipped bytes 40..52, re-encodes to bytes 0..56 |
| Headers.TelemetryHeaderIgnoresTail | main.go:72-79 | Of the 112 bytes sliced, only the first 56 influence the header: captures that agree on them decode alike |
| Headers.I32AtBytes | main.go:77 | The int32 read at any offset re-encodes to the four bytes there |
| Headers.U64AtBytes | main.go:87 | The 64-bit value read at any offset re-encodes to the eight bytes there |
| Headers.DecodeDiskHeader | main.go:82-89 | Decoding succeeds exactly when the capture holds at least 144 bytes; otherwise the error is DiskHeaderOutOfRange; the results are 64-bit patterns and int32s |
| Headers.DecodeEncodeDiskHeader | main.go:41-47 | A disk header encoded after any 112 bytes decodes to itself, whatever bytes follow it |
| Headers.EncodeDecodeDiskHeader | main.go:82-89 | The disk header is exactly bytes 112..144: re-encoding the decoded header rebuilds them |
| Headers.SessionInfo | main.go:92-95 | The copy succeeds exactly when offset and length are non-negative, their int32 sum does not wrap and the end is in the capture; the copy holds SessionInfoLength bytes, byte i being capture byte SessionInfoOffset + i; otherwise SessionInfoOutOfRange |
| VarRecords.StripNul | main.go:59-69 | Removing the NUL bytes never lengthens a field and leaves no NUL |
| VarRecords.StripNulIdentity | main.go:59-69 | A field without NUL bytes is returned unchanged |
| VarRecords.StripNulIdempotent | main.go:59-69 | Stripping a second time changes nothing |
| VarRecords.StripNulAppend | main.go:59-69 | Stripping a concatenation strips each part |
| VarRecords.StripNulMultiset | main.go:59-69 | The result holds exactly the non-NUL bytes of the field, each as often as in the field |
| VarRecords.Name | main.go:59-61 | Name() is at most 32 bytes and holds no NUL |
| VarRecords.Description | main.go:63-65 | Description() is at most 64 bytes and holds no NUL |
| VarRecords.Unit | main.go:67-69 | Unit() is at most 32 bytes and holds no NUL |
| VarRecords.TextField | main.go:59-69 | A stripped field equals the field when it has no NUL, is a fixed point of stripping, and holds exactly the field's non-NUL bytes |
| VarRecords.NameText | main.go:59-61 | Name() is Stuff[0:32] when that holds no NUL, is unchanged by stripping again, and holds exactly its non-NUL bytes |
| VarRecords.DescriptionText | main.go:63-65 | The same for Description() and Stuff[32:96] |
| VarRecords.UnitText | main.go:67-69 | The same for Unit() and Stuff[96:128] |
| VarRecords.DecodeVarRecord | main.go:49-57 | A decoded record has int32 Type, Offset and Count and an int8 CountAsTime |
| VarRecords.EncodeVarRecord | main.go:49-57 | An encoded record, with its three pad bytes, is 144 bytes long |
| VarRecords.DecodeEncodeVarRecord | main.go:49-57 | An encoded record decodes to itself, whatever its pad bytes |
| VarRecords.EncodeDecodeVarRecord | main.go:49-57 | Type sits at +0, Offset at +4, Count at +8, CountAsTime at +12, the pad at +13..+16 and Stuff at +16..+144: re-encoding rebuilds the 144 bytes |
| VarRecords.RecordAt | main.go:100-103 | Record i of a table starting at `base` is the 144 bytes at base + 144 i, decoded; ReadVarHeaders is proved to return exactly these records |
| VarRecords.RecordsFit | main.go:99-103 | All n contiguous records lie in the capture exactly when the first starts inside it and the last ends inside it |
| VarRecords.ReadVarHeaders | main.go:98-107 | The loop succeeds exactly when all NumVars records fit, and then returns NumVars records in index order, record j decoded from bytes base + 144 j; otherwise it fails on the first record outside the capture, after all earlier ones fit |
| VarRecords.RecordZeroIsHeader | main.go:100-103 | Read from byte 0, record 0 is the file header: its Type, Offset and Count are Version, Status and TickRate, and its Name comes from header bytes 16..48 |
| VarRecords.AsWrittenShift | main.go:100 | When the table really starts at byte 144, record i + 1 read from byte 0 is declared record i |
| NameTable.Lower | main.go:118 | Lowercasing keeps the length |
| NameTable.AsString | main.go:118 | string(bytes) has one character per byte |
| NameTable.Key | main.go:118 | A key has no uppercase letter, is at most 32 characters, and lowercasing it again changes nothing |
| NameTable.KeyOfBytes | main.go:118 | For any lowercase string, the key of a record equals it exactly when it has the name's length and each of its characters is the name's byte, or that byte plus 32 when the byte is an ASCII capital |
| NameTable.TableOf | main.go:116-119 | The map left by inserting the records in order; TableKeys, TableLastWins and TableKeysLower state its keys and values, and BuildVarMap is proved to build it |
| NameTable.TableKeys | main.go:116-119 | The keys of the table are exactly the keys of the records inserted |
| NameTable.TableLastWins | main.go:116-119 | A key maps to the highest-index record carrying it |
| NameTable.TableKeysLower | main.go:116-119 | Every key of the table is lowercase |
| NameTable.BuildVarMap | main.go:116-119 | The loop fails, with NoVarRecords, exactly when there is no record; otherwise it yields the table of records 1..end inserted in order |
| NameTable.FirstRecordExcluded | main.go:117 | Record 0's key is absent from the table unless a later record carries it |
| NameTable.Lookup | main.go:137 | A name in the table yields the record filed under it; a missing name yields the zero record, whose Offset is 0 |
| Frames.Channel | main.go:140 | A channel window is exactly its width long |
| Frames.Misfit | main.go:137-179 | When not every channel fits, the failing channel named is lap exactly when the lap window leaves the frame |
| Frames.ReadSample | main.go:139-144 | The lap read from a frame is an int32; Frames.SampleRoundTrip states which values the five reads return |
| Frames.ExtractSample | main.go:137-179 | The five reads of a frame succeed exactly when every window lies in the frame; otherwise the error is ChannelOutOfRange for that frame |
| Frames.ExtractReadsOnlyWindows | main.go:137-179 | A sample depends on nothing in the frame but its five windows |
| Frames.SampleRoundTrip | main.go:137-179 | For any name table whose five records fit the frame, an int32 written at the offset of the record filed under "lap" is read back as that lap, and the bytes written at the offsets of the records filed under "sessiontime", "speed", "throttle" and "brake" are read back as those channels |
| Frames.FrameStartIs | main.go:130 | Frame k starts at BufOffset + k * BufLen |
| Frames.FramePosIs | main.go:130 | The i-th frame after one at `start` begins at start + i * BufLen |
| Frames.FramePosSucc | main.go:130-131 | Each frame begins BufLen bytes after the one before |
| Frames.LayoutOf | main.go:137-173 | The records found under "lap", "sessiontime", "speed", "throttle" and "brake", the zero record for a missing name (Lookup); WalkFrames computes it for every frame, as `parse` does |
| Frames.WalkFrom | main.go:128-186 | The samples of frame k at `start` and of every later frame, up to the first frame ending past the capture or the first failing slice; WalkStopsAtOverrun, WalkFromStep, WalkDrop, WalkFrameAt, WalkFromErrors and WalkCountFrom state its properties |
| Frames.Walk | main.go:128-186 | The walk from frame 0 at BufOffset; WalkFrames is proved to compute it, and WalkEndsPastCapture, WalkSampleFrame, FrameCount, ExactFrameCount, MisfitChannelFails and NonPositiveBufLenFails state its properties |
| Frames.WalkFrames | main.go:128-186 | The `for` loop, with its int32 positions kept in range, returns exactly the walk: the samples of all successive frames up to the first frame ending past the capture, or the first frame or channel error |
| Frames.WalkFromErrors | main.go:135-179 | The walk fails only with FrameOutOfRange or ChannelOutOfRange, at a frame no earlier than the first one walked |
| Frames.WalkStopsAtOverrun | main.go:131-134 | A successful walk from any frame stops at one that ends past the capture |
| Frames.WalkFromStep | main.go:128-186 | A successful non-empty walk has an in-range first frame, whose sample comes first, and the walk from the next frame gives the rest |
| Frames.WalkDrop | main.go:128-186 | Dropping the first i samples of a successful walk leaves the walk that starts i frames later |
| Frames.WalkFrameAt | main.go:130-135 | Sample i of a walk comes from frame k + i, whose BufLen bytes lie inside the capture |
| Frames.WalkEndsPastCapture | main.go:131-134 | A successful walk of n samples stops because frame n would end past the capture |
| Frames.WalkSampleFrame | main.go:130-179 | Sample i is what the five reads give on the BufLen bytes at BufOffset + i * BufLen, which lie inside the capture |
| Frames.WalkCountFrom | main.go:128-186 | With every channel inside a frame, a walk starting inside the capture succeeds with (len - start) / BufLen samples |
| Frames.FrameCount | main.go:128-186 | With every channel inside a frame and 0 <= BufOffset, the walk succeeds with (len(bs) - BufOffset) / BufLen samples, or none when BufOffset is past the end |
| Frames.ExactFrameCount | main.go:128-186 | A capture of exactly BufOffset + n * BufLen bytes, or one byte more, yields n samples |
| Frames.MisfitChannelFails | main.go:135-179 | When some channel window leaves the frame and frame 0 is in the capture, the walk fails with ChannelOutOfRange at frame 0 |
| Frames.NonPositiveBufLenYieldsNothing | main.go:130-140 | With BufLen <= 0 a successful walk yields no sample |
| Frames.NonPositiveBufLenFails | main.go:130-140 | With BufLen <= 0 and BufOffset inside the capture the walk fails at frame 0: FrameOutOfRange when BufLen < 0, ChannelOutOfRange on "lap" when BufLen = 0 |
| Parser.Parse | main.go:71-187 | For every capture whose frame positions stay in int32 once the tables are read, the stages fail in program order, each with its own error. Once the tables are read, the outcome is the frame walk's. A success holds the decoded headers, the session-info copy, the NumVars records read from byte 0, the table of records 1..end, and the walk's samples |
| Parser.AsWrittenDropsLast | main.go:98-119 | When the table really starts at byte 144, the records filed in the name table are the declared records 0..NumVars-2. The last declared record is missing from the table unless another record shares its name |
| Parser.Records | main.go:98-107 | The NumVars records read from `base`, record j being RecordAt(base, j); Parse is proved to hold exactly Records(bs, 0, NumVars) |
| Parser.VarMapOf | main.go:116-119 | The name table of records 1..NumVars-1 read from byte 0; Parse is proved to walk the frames with exactly this table |
| SliceCapacity.CapChannel | main.go:135-175 | The window the program reads for a channel holds, for each i below the width, capture byte start + Offset + i, wherever the frame ends |
| SliceCapacity.CapChannelInFrame | main.go:135-175 | A window inside the frame succeeds under the program's bound too and reads the same bytes as the model's window |
| SliceCapacity.AsWrittenReadsNextFrame | main.go:135-144 | A lap window starting two bytes before the frame's end fails in the model, while the program reads its last two bytes from the next frame |
| SliceCapacity.AsWrittenZeroBufLenNeverStops | main.go:128-185 | With BufLen = 0 and the five windows inside the capture at BufOffset, every frame k starts at BufOffset, passes the end test, has a valid slice and has all five reads succeed: the loop never ends |
| SliceCapacity.MissingNamesFitCapture | main.go:137-175 | For any name table without the five channel names, when BufLen is 0 and eight bytes follow BufOffset, the program's five reads all succeed, while none fits the model's empty frame |

## Left out

- Reading `mx5.ibt`, creating `trace.dat`, and all printing. This is file and console I/O. The trace lines are modelled as the `Sample` sequence they would print.
- Float interpretation: times, speed, throttle and brake are kept as raw little-endian bit patterns, because the model has no floating point.
- Unicode semantics of `strings.ToLower` and of the `string(...)` conversion. Each byte becomes one character, and only A-Z are lowercased.
- Go slice capacity. The model bounds each slice by the length of the slice it is cut from; the program bounds it by that slice's capacity.
  - For the frame `buf := bs[start:end]` that capacity is cap(bs) - start, so each channel read succeeds whenever its window lies in the rest of the capture, even when cap(bs) = len(bs). In the model a window that leaves the frame fails at that frame (`Frames.Fits`). The program reads bytes of the following frame instead, prints its lines, and fails only at a later frame, or never. `SliceCapacity.AsWrittenReadsNextFrame` shows one such read, and `SliceCapacity.CapChannelInFrame` shows that the two agree on every window inside its frame.
  - With BufLen = 0 the program never ends whenever the five windows lie in the capture at BufOffset (see Findings). The model's walk fails at frame 0 instead, and `Frames.WalkFrom` terminates only because of this bound.
  - A record slice `bs[start:end]` that ends in the spare capacity of the capture succeeds in the program and fails in the model.
- Frames.WalkFrames: does not model int32 wrap-around of `start` and `end`. It requires `WalkFitsInt32`: the end of frame 0 does not wrap, and, unless frame 0 already ends past the capture, len(bs) + BufLen does not exceed MaxInt32. Under it the loop's int32 values equal the mathematical ones.
- Parser.Parse: does not model int32 wrap-around of the frame positions either. It requires the same bound, only for captures whose headers, session info and records are all read; a capture that fails earlier computes no frame position.
- Session info is copied and bounded but never interpreted. The program does not interpret it either.
- `Frames.WalkFrames` repeats the five lookups of `varMap` for every frame, as `parse` does; the function `Frames.Walk` it is proved equal to makes them once. The map does not change during the loop, so both see the same records.
- There is no type-code registry and no "unknown variable" or "unsupported type" error. The program hard-codes each channel's width, never consults `VarHeader.Type`, and treats a missing name as the zero record with offset 0.
- `log.Fatal` does not exit a process here. Each call site becomes an `Err` result whose error names the stage.

## Findings

| source | as written | input that shows it | evidently intended | confidence | as-written member | corrected member |
|---|---|---|---|---|---|---|
| main.go:100 | Record i is read from bytes 144 i .. 144 i + 144. Positions are measured from the start of the file, and VarHeaderOffset is ignored. | Any capture whose variable table starts right after the two headers, at VarHeaderOffset = 144. Record 0 is then the file header, which matches the "first record corrupted" note at main.go:117. Every later record is the declared record before it, and the last declared record is never read. | Record i is read from VarHeaderOffset + 144 i, so that all NumVars declared records are read and record 0 need not be skipped. | medium, not executed | Parser.AsWrittenDropsLast | VarRecords.ReadVarHeaders |
| main.go:128-185 | The loop only ends when a frame ends past the capture, and BufLen is never checked; the channel reads are bounded by the capacity of `buf`, not by the frame. | BufLen = 0, BufOffset + 8 <= len(bs), and none of the five names in the table (every offset 0). Every frame is the empty slice at BufOffset, every read succeeds, and the loop prints the same line forever. | A BufLen of 0 or less, or a channel window outside the frame, is reported as an error, so that the walk always ends. | high, not executed | SliceCapacity.AsWrittenZeroBufLenNeverStops | Frames.NonPositiveBufLenFails |

`Parser.Parse` keeps the program's behaviour: it reads the records from byte 0 and builds the table from records 1..end. `VarRecords.ReadVarHeaders` takes the table's start as a parameter. Its contract holds for any start. Given VarHeaderOffset, it returns exactly the declared records, record j from VarHeaderOffset + 144 j. It fails exactly when the declared table leaves the capture. `VarRecords.RecordZeroIsHeader` and `VarRecords.AsWrittenShift` show the two halves of the shift.

`SliceCapacity.MissingNamesFitCapture` shows that the input of the second row meets the requirements of `SliceCapacity.AsWrittenZeroBufLenNeverStops`. The model bounds every window by its frame, so `Frames.NonPositiveBufLenFails` shows its walk failing at frame 0 on the same input.
