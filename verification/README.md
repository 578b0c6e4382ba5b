# ShakaDB: a verified model

ShakaDB stores time series: every series is a memory-mapped file of fixed-size points, sorted by
time, written in batches, and served to clients over a small framed protocol. The repository also
carries an LZ4 block codec as a prototype for compressing transfers. This project models both in
Dafny and proves what they are for.

The main results, each for all inputs and all runs in its domain:

- **LZ4.** Decompressing what was compressed gives the input back, for every input of a supported
  size, any output buffer that is large enough, and any hash function (`RoundTrip`,
  `RoundTripAnyHash`). The overshooting eight-byte decoder accepts exactly the blocks that parse
  and leave it the room it demands, and then agrees with a byte-at-a-time reference decoder
  (`DecompressSafe`). The compressor's blocks keep the end-of-block conditions of the LZ4 Block
  Format, have matches that cannot be extended either way, and stay below the advertised bound. The
  search cannot miss what it should find: it ends at the first place that the table has a match for
  (`FindMatch`), so for every hash no literals are left that repeat one byte five times in the first 65 bytes
  behind the start or a match (`CompressGeneric`), and an input of a period of up to 65 bytes becomes one period of
  literals and one match, of an exact size (`CompressPeriod`, `CompressRun`).
- **Storage.** Any sequence of writes, truncates, range reads, latest reads and restarts replies
  like a map from series ids to a point size and a map from times to values (`Run`). Below it, a
  write rewrites the bytes of the file in place, and opening a file finds the exact number of
  points by a search for a sentinel.
- **Network.** Any number of clients may connect, call, take in packets and have their requests cut into
  reads, in any interleaving and with server restarts between. Sessions, buffers, files and replies then
  go through a history of a small machine over calls, packets and that same map (`Converse`). In every
  history the handled calls are a run of the map, a client asked exactly for what it called while it was
  neither blocked nor reading, and it was told the replies of its own calls in order, all of them when
  nothing is on the wire (`HistoryKeeps`, `AskedIsAccepted`, `Converse`). A call that is read from and
  whose packets are taken in often enough is told its reply, whatever others do (`CallIsTold`). A range
  read arrives in ceil(n/p) pages and an empty one that together are the n points (`HandleRead`), is
  collected exactly, and leaves nothing on the wire (`ClientRead`).

Properties that do not hold of the code are stated with the exact condition under which they do:

- The decoder accepts matches with offset zero, which the format forbids. An accepted block means
  what the reference decoder says if and only if no offset is zero (`AcceptedExecutes`), and
  `ZeroOffsetAccepted` is a concrete block.
- The comment at prototype/transfer-compression/lz4.h:85-86 says the decoder never reads outside its
  input. `DecompressSafe` returns the end of what it reads, and proves that this is inside the input
  if and only if the first token and the first extra byte it announces are. `OneByteReadsTwo` and
  `EmptyIsRead` are the inputs for which they are not; they are refused.
- A series file gives back all its points if and only if every time is below the sentinel
  0xFFFFFFFFFFFFFFFE (`RecoverCount`, the search that opening a file makes); `SentinelIsLost` is a file
  that loses its point.
- The comment at src/network/server.h:46-48 says the read buffer is always large enough. For clients
  that wait for each reply it is (`ReceiveAll`). For others `Feed` says which read is the first that
  does not fit, and `BackToBack` decides it for frames of one size: `k` reads of `n` bytes all fit if
  and only if `(k - 1) * (n - f) + n` is at most the buffer's size. `BufferRunsOut` and
  `TruncatesRunOut` are runs in which the 102nd read does not fit.
- The handled frame is dropped with a memcpy, which is undefined when the places overlap. They do if and
  only if the bytes left over are more than the frame (`OnDataRead`). For clients that wait for each
  reply they never do (`ReceiveAll`, `Converse`); for others `Feed` says in which callbacks they do,
  and in `BufferRunsOut` they do.
- A response packet fits the transport limit if and only if one with a single point does
  (`AnswerFitsTransport`). `OversizedServed` is a run that stores a larger point and serves it. It cannot be
  stored by a client (`OversizedPoint`): every packet of every conversation fits (`PacketsFit`, `Converse`).
- After `session_read_latest` and one `session_read_next` the read stays open if and only if the
  series has a point, because no empty packet follows (`ClientReadLatest`).
- A validated payload is a proper message if and only if the size it announces does not overflow 64
  bits (`EncodeDecoded`); `OverflowValidates` is one that does.
- The client takes in a frame if and only if its payload is shorter than 2^31 bytes, the most its
  `int` count of received bytes can tell (`ReceivedFrame`).

The bytes are stated one by one where both sides of a format could agree on something else:
`SequenceLayout` and `TailLayout` for LZ4 sequences, `EncodedIsWire` for payloads, `FrameBytes` for
frames, `PointBytes` for points and `FileNameIs` for names, with `CompressText`, `DecodeFourteen`,
`TruncateOne`, `StatusBytes` and `SomeFileNames` as literal examples.

## Layout

| file | contents |
|---|---|
| Bytes.dfy | little-endian words, exclusive or, trailing zeros |
| Lz4Format.dfy | LZ4 blocks: encoding, parsing, reference decoder |
| Lz4Copy.dfy, Lz4Decompressor.dfy | the fast decoder |
| Lz4Compressor.dfy, Lz4RoundTrip.dfy | the compressor, and both together |
| DataPoint.dfy | merge, sort, distinct and ranges of points |
| SeriesFile.dfy, Series.dfy | the bytes of a series file, and the series over it |
| FileNames.dfy, Directory.dfy | names of series files, and what a directory stands for |
| Database.dfy, DatabaseRuns.dfy | the database, and its runs |
| Protocol.dfy, Server.dfy | payloads and frames |
| ClientHandler.dfy, Session.dfy | the server's handlers and the client's session |
| EndToEnd.dfy | client calls through the whole stack |
| Dialogue.dfy, Conversation.dfy | the machine of interleaved calls, and sessions, connections and files that follow it |

A directory is a map from names to bytes and a mapped file is the bytes of the file. Integers are
unbounded; 16-, 32- and 64-bit truncation is written out where a value can exceed its width. How many
sends succeed, how reads cut the stream and in what order a directory is listed are arbitrary.

## Model

| member | source | states |
|---|---|---|
| Bytes.TrailingZeroBytes | prototype/transfer-compression/lz4.c:301-329 | On a little-endian machine the trailing zero bytes of the exclusive or of two different words count exactly the leading bytes they share |
| Lz4Format.ParseEncoded | prototype/transfer-compression/lz4.c:531-637 | Parsing is a left inverse of the encoding of token, lengths, literals and offset, for every block |
| Lz4Format.SequenceLayout | prototype/transfer-compression/lz4.c:531-590 | A sequence byte by byte: token, rest of the literal length, literals, offset with its low byte first, rest of the match length less four |
| Lz4Format.TailLayout | prototype/transfer-compression/lz4.c:538-545 | The rest of a length from 15 on is bytes of 255 and a last one below, adding up to it |
| Lz4Format.FourteenDecoded | prototype/transfer-compression/lz4.c:952-1031 | The block 14 b 01 00 50 b b b b b decodes to fourteen bytes b |
| Lz4Format.CopyMatchUnique | prototype/transfer-compression/lz4.c:1026-1026 | The byte-at-a-time overlapping copy is the only extension of the output that repeats with the period of the offset |
| Lz4Format.EncodeAllSize | prototype/transfer-compression/lz4.c:531-590 | Summed over all sequences, the encoding takes at most 256/255 of the bytes it stands for |
| Lz4Format.BlockSize | prototype/transfer-compression/lz4.h:102-102 | A block takes at most n + n/255 + 2 bytes for n bytes of output |
| Lz4Copy.WildCopyFrom | prototype/transfer-compression/lz4.c:272-293 | A wild copy from another buffer gives exactly the bytes asked for, changes nothing more than eight bytes past them, and reads on no further than its source |
| Lz4Copy.WildCopy | prototype/transfer-compression/lz4.c:272-293 | A wild copy inside the output continues the pattern of its distance when that is at least eight |
| Lz4Copy.WidenedCopy | prototype/transfer-compression/lz4.c:1015-1030 | A copy from a multiple of the offset continues the pattern of the offset itself |
| Lz4Decompressor.WidenedDistance | prototype/transfer-compression/lz4.c:895-897 | For every short offset both adjusted distances are multiples of the offset, and the second is at least eight |
| Lz4Decompressor.ReadRunLength | prototype/transfer-compression/lz4.c:914-928 | The literal length loop reads what the format says; where it stops early the run cannot fit in the input; it ends behind the first byte below 255 or where at most fifteen bytes are left; only its first extra byte can lie outside |
| Lz4Decompressor.ReadMatchLength | prototype/transfer-compression/lz4.c:956-968 | The match length is what the format says, and is refused exactly when it does not parse or fewer than four bytes are left behind its extra bytes, at the first byte with fewer than five left |
| Lz4Decompressor.CopyFirstEight | prototype/transfer-compression/lz4.c:1002-1019 | The first eight bytes of a match repeat with the offset, and the rest is copied from a multiple of it |
| Lz4Decompressor.CopyRest | prototype/transfer-compression/lz4.c:1020-1031 | The rest, wide or byte by byte near the end of the output, continues the pattern up to the end of the match |
| Lz4Decompressor.CopyMatchFast | prototype/transfer-compression/lz4.c:1002-1031 | The match copy leaves exactly the bytes of the byte-at-a-time copy for every offset from one on, and fails exactly when the match ends in the last five bytes of the output |
| Lz4Decompressor.DecodeOne | prototype/transfer-compression/lz4.c:909-1032 | One turn of the main loop fails exactly for what does not parse or does not fit, at the exact position the source stops at; otherwise it appends the literals and the match of the parsed sequence; it reads outside the input exactly when its token's bytes are |
| Lz4Decompressor.AcceptedExecutes | prototype/transfer-compression/lz4.c:952-954 | Blocks with the demanded room have a meaning in the format if and only if no offset is zero |
| Lz4Decompressor.ZeroOffsetAccepted | prototype/transfer-compression/lz4.c:952-954 | A concrete block with offset zero that is accepted and has no meaning in the format |
| Lz4Decompressor.DecompressSafe | prototype/transfer-compression/lz4.c:865-1049 | For every input: ends, stays inside the output, returns at most the output size, a non-negative result exactly for accepted blocks, with the reference decoder's output, and otherwise -1 minus the position of the refusal; reads stay inside the input if and only if the first token's bytes do |
| Lz4Decompressor.DecodeFourteen | prototype/transfer-compression/lz4.c:865-1049 | The block of fourteen equal bytes gives 14 and the bytes |
| Lz4Decompressor.OneByteReadsTwo | prototype/transfer-compression/lz4.c:914-924 | The one-byte input 0xF0 makes it read a second byte and is refused |
| Lz4Decompressor.EmptyIsRead | prototype/transfer-compression/lz4.c:914-924 | An empty input makes it read one byte, or two when the first announces extra length bytes, and is refused |
| Lz4Compressor.StoredExact | prototype/transfer-compression/lz4.c:380-401 | No position stored in the table is truncated, in 16-bit mode either |
| Lz4Compressor.Count | prototype/transfer-compression/lz4.c:409-425 | LZ4_count is the exact length of the longest agreement up to the limit |
| Lz4Compressor.PutPosition | prototype/transfer-compression/lz4.c:380-394 | Storing a position keeps every entry of the table zero or a real position with that hash |
| Lz4Compressor.FindMatch | prototype/transfer-compression/lz4.c:491-526 | The search looks at 66 places in a row and then at growing distances; it ends at the first of them whose table entry is a match, or when the next is over the limit, and not before; what it finds lies in the window, agrees on four bytes and leaves twelve bytes of input |
| Lz4Compressor.SearchLeaves | prototype/transfer-compression/lz4.c:491-526 | For every hash the literals that a search leaves contain no five equal bytes within its first 65 places |
| Lz4Compressor.FirstSearch | prototype/transfer-compression/lz4.c:476-526 | The first search ends at the first repetition of the first four bytes when it is within 65 bytes and no hash in between is theirs |
| Lz4Compressor.CatchUp | prototype/transfer-compression/lz4.c:528-529 | Extending backwards keeps the distance and the agreement, and stops only at a difference, the anchor or the input's start |
| Lz4Compressor.EmitExtraPairs | prototype/transfer-compression/lz4.c:585-587 | Writing extra length bytes in pairs gives the bytes of the format, and touches nothing behind them |
| Lz4Compressor.EmitLiterals | prototype/transfer-compression/lz4.c:531-548 | Token, extra bytes and literals are the format's, with at most eight bytes written behind them |
| Lz4Compressor.EmitMatch | prototype/transfer-compression/lz4.c:550-590 | Offset, token nibble and extra bytes complete the encoding of the sequence |
| Lz4Compressor.CoversMore | prototype/transfer-compression/lz4.c:550-592 | A further match keeps that the sequences reproduce the input so far, keep the end-of-block conditions and are maximal |
| Lz4Compressor.EmitOneMatch | prototype/transfer-compression/lz4.c:550-592 | After every match the output is the encoding of sequences that reproduce the input up to the anchor |
| Lz4Compressor.NextMatch | prototype/transfer-compression/lz4.c:597-619 | A match right behind the last one is taken if and only if the entry is at most 65535 bytes back and agrees on four bytes; the entry is the last place stored for that hash |
| Lz4Compressor.EmitMatches | prototype/transfer-compression/lz4.c:550-619 | The same for all matches that follow each other directly |
| Lz4Compressor.EmitFound | prototype/transfer-compression/lz4.c:528-619 | Catching up, the literals, the match and those that follow it keep the output the encoding of sequences for the input so far |
| Lz4Compressor.EmitSequences | prototype/transfer-compression/lz4.c:480-623 | The main loop ends with the encoding of maximal sequences for the input up to the last literals, with at most six bytes written behind it; no literals are left that the search or the test behind a match must have taken |
| Lz4Compressor.EmitLast | prototype/transfer-compression/lz4.c:625-638 | The last literals complete a well-formed block that stands for the whole input, within the bound |
| Lz4Compressor.CompressGeneric | prototype/transfer-compression/lz4.c:428-639 | Zero exactly for unsupported sizes; otherwise, for every hash function, a well-formed block that stands for the input, within the bound, with nothing written behind it, with matches that cannot be extended and without literals that repeat one byte five times in the first 65 bytes behind the start or a match or, right behind one, repeat the four bytes two places before |
| Lz4Compressor.Compress | prototype/transfer-compression/lz4.c:642-660 | The same for the repository's hash and its choice of table |
| Lz4Compressor.PeriodBlock | prototype/transfer-compression/lz4.c:550-592 | The one well-formed maximal block of a periodic input whose first match is one period back |
| Lz4RoundTrip.DecodeEncoded | prototype/transfer-compression/lz4.c:428-639 | The reference decoder inverts every block that stands for an input |
| Lz4RoundTrip.WellFormedAccepted | prototype/transfer-compression/lz4.c:909-1032 | The end-of-block conditions give the fast decoder all the room it demands in every output buffer that is large enough |
| Lz4RoundTrip.RoundTrip | prototype/transfer-compression/lz4.c:642-1049 | Decompressing the compressed input returns its length and reproduces it, for all inputs of supported size and all large enough buffers |
| Lz4RoundTrip.RoundTripAnyHash | prototype/transfer-compression/lz4.c:428-1049 | The same for any hash function and either table |
| Lz4RoundTrip.CompressPeriod | prototype/transfer-compression/lz4.c:428-639 | An input of a period of up to 65 bytes, at least thirteen bytes longer, whose words the hash tells apart, becomes one period of literals and one match; its exact size |
| Lz4RoundTrip.CompressRun | prototype/transfer-compression/lz4.c:428-639 | For every hash, n equal bytes become a block of exactly n + 1 bytes for n up to 13, 10 up to 24, and 11 + (n - 25)/255 above |
| Lz4RoundTrip.CompressText | prototype/transfer-compression/lz4.c:642-660 | "abcd" ten times becomes the bytes 4F 61 62 63 64 04 00 0C 50 64 61 62 63 64, with the repository's hash |
| DataPoint.MergeIsOverride | src/data-point.c:17-57 | Merging strictly sorted lists gives a strictly sorted list whose map is the old map overridden by the new one; shared times are counted once |
| DataPoint.NextPoint | src/data-point.c:29-50 | Each branch takes the next point of the merge, and consumed is processed plus duplicated |
| DataPoint.MergeInto | src/data-point.c:17-57 | The loop stays inside both lists, ends, and leaves exactly the merge |
| DataPoint.MergeSplice | src/storage/series.c:98-122 | Only the slice between the first and last new time takes part in a merge |
| DataPoint.Sort | src/data-point.c:59-61 | A sorted permutation |
| DataPoint.DistinctSorted | src/data-point.c:63-82 | Of a sorted list, the kept points are strictly sorted, without time zero, one for every nonzero time, each the last of its run |
| DataPoint.NonZeroDistinct | src/data-point.c:63-82 | The in-place loop leaves exactly the kept points in front |
| SeriesFile.PointRoundTrip | src/data-point.c:84-86 | A point read from its bytes is the point |
| SeriesFile.PointBytes | src/data-point.h:15-18 | A point is eight bytes of time, low byte first, and the value as it is |
| SeriesFile.LayoutBytes | src/storage/series.c:48-58 | The length of a series file is capacity times point size, its front is the points, and every byte behind them is 0xFF |
| SeriesFile.GrowLayout | src/storage/series.c:166-175 | Growing by whole points of 0xFF keeps the points |
| SeriesFile.AppendLayout | src/storage/series.c:94-96 | Copying a batch behind the points makes a file of the points and the batch |
| SeriesFile.SpliceLayout | src/storage/series.c:112-122 | Moving the tail and copying the merged slice, in bytes and in that order, makes a file of the spliced points |
| SeriesFile.Find | src/data-point.c:112-143 | The binary search returns where the list splits at the time, and nothing only for an empty list |
| SeriesFile.RecoverCount | src/storage/series.c:54-58 | For any strictly sorted points the search for the sentinel counts those below it, and all of them if and only if every time is below it |
| SeriesFile.SentinelIsLost | src/storage/series.c:54-58 | On a file whose one point has the sentinel's time the search counts none |
| SeriesFile.ContentsOfLayout | src/storage/series.c:54-58 | The bytes of a series file determine its points |
| Series.Disk.Grow | src/storage/disk.c:73-88 | Appends exactly the wanted number of pattern bytes, a buffer at a time |
| Series.Prepare | src/storage/series.c:136-145 | Sorting and thinning keeps one point of the batch for each of its nonzero times, in order |
| Series.OverwriteMeaning | src/storage/series.c:73-134 | After a write batch times hold a value of the batch, other times keep theirs, and the count grows by the number of new times |
| Series.SliceOfMerge | src/storage/series.c:98-104 | The two searches of a write delimit the slice that the batch overlaps |
| Series.TimeSeries.constructor | src/storage/series.c:35-61 | Opening a file, new or existing, full or padded, recovers exactly its points; a new file takes a million bytes of points, another stays as it is |
| Series.TimeSeries.Recover | src/storage/series.c:54-58 | The recovered count is the number of points |
| Series.TimeSeries.GrowBy | src/storage/series.c:166-175 | Capacity and file grow together and the points stay |
| Series.TimeSeries.Write | src/storage/series.c:73-134 | Fails exactly for another point size or a batch without a nonzero time, and then changes nothing; otherwise the points are overridden by the batch, the layout is kept, and the file grows exactly when the batch does not fit, by a million bytes or the batch |
| Series.TimeSeries.WriteKept | src/storage/series.c:86-124 | Appended or spliced, the points become the merge with the batch; the capacity grows exactly when they do not fit |
| Series.TimeSeries.Append | src/storage/series.c:94-96 | The append branch is a merge |
| Series.TimeSeries.MergeSlice | src/storage/series.c:97-124 | The find, merge, move and copy branch is a merge |
| Series.TimeSeries.Read | src/storage/series.c:147-157 | The first points of a time range up to a limit, for every range, limit and series |
| Series.TimeSeries.ReadLatest | src/storage/series.c:159-164 | The point with the largest time, if there is one |
| FileNames.StrtolOfFormat | src/storage/database.c:138-175 | A printed size is read back as itself, also when it was printed with a minus sign |
| FileNames.FormatIsDecimal | src/storage/database.c:138-156 | A value is printed as its decimal numeral without leading zeros, and from 2^31 on as a negative one |
| FileNames.FileNameIs | src/storage/database.c:137-138 | A name is the numeral of the id, a dash and the numeral of the point size |
| FileNames.SomeFileNames | src/storage/database.c:137-138 | 1-16, 23450-6789 and 0--1 |
| FileNames.CandidateIsOwn | src/storage/database.c:155-172 | The prefix of an id selects the file of another id never, and its own always |
| FileNames.FileNameInjective | src/storage/database.c:137-138 | Names tell ids and sizes apart |
| FileNames.SizeFromName | src/storage/database.c:175-175 | The size parsed from a name is the size that named it |
| Directory.PutFile | src/storage/database.c:137-141 | Writing the one file of an id keeps at most one file for each id and changes no other id |
| Directory.RemoveFile | src/storage/database.c:80-81 | Removing it removes the id and nothing else |
| Database.Database.constructor | src/storage/database.c:37-45 | A database starts, or starts again, with an empty cache on any sound directory |
| Database.Database.OpenSeries | src/storage/database.c:176-179 | Opening a file into the cache changes nothing a reader can see, except that an unknown id becomes an empty series |
| Database.Database.GetOrLoad | src/storage/database.c:144-185 | The directory scan finds the series of an id exactly when there is one, and nothing a reader can see changes |
| Database.Database.GetOrCreate | src/storage/database.c:126-142 | A missing series is created empty with the batch's point size, and no other id changes |
| Database.Database.Write | src/storage/database.c:61-69 | Fails exactly for an id out of range or a refused batch; otherwise the series is overridden, and no other id changes |
| Database.Database.Truncate | src/storage/database.c:71-86 | The id is unknown afterwards, and no other id changes |
| Database.Database.GetPointSize | src/storage/database.c:88-91 | The stored point size, zero for an unknown id |
| Database.Database.Read | src/storage/database.c:106-124 | The first points of the range, and no visible change |
| Database.Database.ReadLatest | src/storage/database.c:93-104 | The latest point, and no visible change |
| DatabaseRuns.ReadAnswers | src/storage/series.c:147-157 | A limited read of the list is the earliest entries of the range of the map |
| DatabaseRuns.ReadAllAnswers | src/network/client-handler.c:58-110 | The whole range of the list is the range of the map, in order |
| DatabaseRuns.WriteIsStep | src/storage/database.c:61-69 | A write of files is a write of the map |
| DatabaseRuns.TruncateIsStep | src/storage/database.c:71-86 | A truncate of files removes the entry of the map |
| DatabaseRuns.Execute | src/storage/database.c:37-124 | Every operation, a restart included, is one step of the map |
| DatabaseRuns.Run | src/storage/database.c:37-185 | Every sequence of operations and restarts replies as a run of the map |
| Protocol.MessageRoundTrip | src/network/protocol.c:32-132 | Every encoded message passes validation and is decoded to its fields |
| Protocol.EncodedIsWire | src/network/protocol.h:38-46 | Every message byte by byte, with type codes 1 to 6 and words low byte first |
| Protocol.WireDecodes | src/network/protocol.c:113-132 | Those bytes are valid and decode to the message |
| Protocol.TruncateOne | src/network/protocol.h:45-46 | 05 01 00 00 00 is a truncate of series 1, 06 01 00 00 00 a latest read |
| Protocol.EncodeDecoded | src/network/protocol.c:113-132 | Conversely, every validated payload is the encoding of what is decoded from it, and a proper message if and only if the size it announces does not overflow |
| Protocol.OverflowValidates | src/network/protocol.c:113-132 | A payload that announces 2^33 points of 2^31 bytes, carries none and is validated |
| Server.DeliveredBytes | src/network/server.c:200-231 | A delivered frame and the bytes left over are the bytes that were buffered |
| Server.FrameBytes | src/network/protocol.h:49-49 | A frame is 41 4D 41 4B, its whole size low byte first, and the payload |
| Server.JudgeFrame | src/network/server.c:204-220 | A complete frame is delivered whole, whatever follows it |
| Server.JudgePrefix | src/network/server.c:200-214 | A proper prefix of a frame is waited on |
| Server.JudgeStream | src/network/server.c:200-220 | In a stream of frames the next frame is delivered when it is all there, and waited on otherwise |
| Server.Connection.OnDataRead | src/network/server.c:184-233 | Waits, disconnects or calls the handler once with the first frame's payload; disconnects without a call exactly when the first eight bytes have another magic than 41 4D 41 4B or a size over 6553600; while connected the bytes received are the handled frames and the buffer, in order; the copy that drops the frame overlaps itself exactly when more bytes are left over than the frame has |
| Server.ReceiveFrame | src/network/server.c:184-233 | However a frame is cut into reads, it is handled once and whole, the buffer is empty again, and no copy overlaps |
| Server.ReceiveAll | src/network/server.c:184-233 | For any sequence of frames with a reply awaited after each, the handler sees exactly their payloads, in order, and no copy overlaps |
| Server.Feed | src/network/server.c:184-233 | For any stream of frames and any reads, without waiting for replies: each callback handles at most one frame, in order; the first read that does not fit is the first for which the backlog and the read exceed the buffer; some copy overlaps exactly when some callback leaves more than the frame it handled |
| Server.UniformBacklog | src/network/server.c:216-231 | With frames of f bytes in reads of n >= f bytes the backlog after k reads is k * (n - f) |
| Server.UniformOverlaps | src/network/server.c:227-231 | With frames of one size in reads of one size some copy of the first k overlaps if and only if the backlog after k reads exceeds a frame |
| Server.BackToBack | src/network/server.h:46-50 | k reads are all taken if and only if the last fits behind the backlog of those before |
| Server.BufferRunsOut | src/network/server.h:46-50 | With five-byte payloads in full reads 101 reads are taken, the next does not fit, and a copy has overlapped |
| ClientHandler.Client.Send | src/network/server.c:46-69 | The bytes sent are the frames of the payloads that were taken |
| ClientHandler.PagesConcat | src/network/client-handler.c:75-109 | The pages together are the points in order |
| ClientHandler.PagesShape | src/network/client-handler.c:75-109 | Only the last page is empty, none is over-full, and all but the last with points are full |
| ClientHandler.PagesCount | src/network/client-handler.c:75-109 | There is one page for every p points begun, and the empty one |
| ClientHandler.AnswerInPages | src/network/client-handler.c:75-109 | The payloads of an answer carry exactly such pages: ceil(n/p) with points and an empty one, together the points in order |
| ClientHandler.PagingIsPacked | src/network/client-handler.c:72-72 | Pages of p points are as full as 6553300 bytes allow |
| ClientHandler.NextPage | src/network/client-handler.c:83-85 | Reading on from the over-read point gives the rest of the range |
| ClientHandler.SendPage | src/network/client-handler.c:75-103 | One turn sends the next page and moves the cursor to the page after it |
| ClientHandler.HandleRead | src/network/client-handler.c:58-110 | The loop ends; as many payloads of the answer are sent as the network takes, none skipped, repeated or changed; the answer carries the points of the range in ceil(n/p) pages and an empty one, none with more than 6553300 bytes of points unless it has one point, and none but the last with points with room for another |
| ClientHandler.AnswerFitsTransport | src/network/client-handler.h:11-15 | Every packet of an answer is within the packet limit if and only if one with a single point is |
| ClientHandler.HandleWrite | src/network/client-handler.c:112-130 | The write is done, and the client is told OK exactly when it succeeded, if the send succeeds |
| ClientHandler.HandleTruncate | src/network/client-handler.c:132-146 | The series is gone, and the client is told OK if the send succeeds |
| ClientHandler.HandleReadLatest | src/network/client-handler.c:148-162 | One response with the latest point, or with none, if the send succeeds |
| ClientHandler.StatusBytes | src/network/client-handler.c:125-125 | Success is answered 02 00 and failure 02 01 |
| ClientHandler.ProcessMessage | src/network/client-handler.c:29-56 | Invalid payloads and responses are refused without effect; every request does and sends what its handler should |
| Session.Session.SocketReceive | src/ctl/session.c:101-113 | Any pattern of short reads collects the same bytes; their count wraps like an int |
| Session.CountAgrees | src/ctl/session.c:229-246 | The count equals the size asked for if and only if all bytes came and the size is below 2^31 |
| Session.Session.Receive | src/ctl/session.c:229-261 | Takes one frame off the stream, and returns its payload exactly when magic, length, count, type and validation agree |
| Session.Session.Request | src/ctl/session.c:144-160 | Writes and truncates are refused, with nothing sent, exactly while a read is open |
| Session.Session.SimpleResult | src/ctl/session.c:208-216 | Zero exactly for a valid response with code OK |
| Session.Session.Read | src/ctl/session.c:162-172 | A range read is refused exactly while a read is open |
| Session.Session.ReadLatest | src/ctl/session.c:196-206 | So is a latest read |
| Session.Session.ReadNext | src/ctl/session.c:174-194 | The read stays open exactly while packets with points arrive |
| Session.ReceivedFrame | src/ctl/session.c:218-261 | A frame at the front of the stream leaves the rest, and is received if and only if its payload is below 2^31 bytes |
| Session.Drain | src/ctl/session.c:174-194 | Reading on until the read closes collects exactly the points of the answer and leaves what follows it |
| EndToEnd.Serve | src/network/server.c:184-233 | A request, however cut, is handled once and answered in full |
| EndToEnd.ClientRead | src/ctl/session.c:162-194 | The bytes the session sent, however cut, bring the client exactly the stored points of the range, in order; the read is closed and the wire empty both ways |
| EndToEnd.ClientWrite | src/ctl/session.c:144-151 | The client's result is zero exactly when the map took the batch |
| EndToEnd.ClientTruncate | src/ctl/session.c:153-160 | The client's result is zero and the map lost the entry |
| EndToEnd.ClientReadLatest | src/ctl/session.c:174-206 | The client gets the latest point; the read stays open if and only if there is one |
| EndToEnd.WrittenFits | src/network/protocol.c:32-46 | A point that came in a write request fits a response packet |
| EndToEnd.OversizedPoint | src/network/client-handler.h:11-15 | A point one byte too large for a response packet, which no write request can bring |
| EndToEnd.OversizedServed | src/network/client-handler.c:58-110 | The run that stores such a point with a database write and serves it in a packet over the limit |
| EndToEnd.PacketsFit | src/network/client-handler.c:58-162 | Every packet served from a store whose points came over the network is within the packet limit |
| EndToEnd.TruncatesRunOut | src/network/server.c:184-233 | Truncate requests sent without waiting fill the buffer: the 102nd full read does not fit |
| Dialogue.PacketsInPages | src/network/client-handler.c:72-109 | The packets of a range reply are pages: ceil(n/p) with points, an empty one, together the points, and as full as can be |
| Dialogue.HistoryKeeps | src/network/client-handler.c:29-162 | In every history of clients the handled calls are a run of the map, and every client is told its replies in the order of its calls, with at most the last under way |
| Dialogue.EveryoneConnected | src/network/server.c:151-182 | There are as many clients as connected |
| Dialogue.AskedIsAccepted | src/ctl/session.c:144-206 | The calls of a client that are not refused are, in order, those it makes while connected, not blocked and without an open read |
| Dialogue.EnoughReads | src/network/server.c:184-233 | A request read from as often as it has bytes is handled, whatever else happens |
| Dialogue.EnoughTakes | src/ctl/session.c:174-216 | A reply of which as many packets are taken in as it has is told, whatever else happens |
| Dialogue.CallIsTold | src/ctl/session.c:144-216 | A call whose request is read and whose packets are taken in is told the reply it has in the run of the map |
| Conversation.StepServable | src/storage/database.c:61-69 | Client calls keep every stored point small enough for a response packet |
| Conversation.AnswerCarries | src/network/client-handler.c:58-162 | What the server sends for a request is exactly the packets of a reply that is a step of the map, within the limit |
| Conversation.Peer.Ask | src/ctl/session.c:144-206 | A call is refused exactly while a read is open, and otherwise its request is on its way |
| Conversation.Peer.Arrive | src/network/server.c:184-233 | A read takes its bytes off the wire; the last byte of a request, and no other, makes it one step of the map with the packets of its reply on their way |
| Conversation.Peer.Take | src/ctl/session.c:174-216 | Taking in a packet leaves the others on the wire; the last one, and no other, completes the call with the reply of the map |
| Conversation.Play | src/network/client-handler.c:29-162 | For every interleaving of connects, calls, cut reads, packets and restarts the clients, their sessions and the directory go through a history of calls, packets and the map |
| Conversation.Converse | src/network/client-handler.c:29-162 | In that history the handled calls are a run of the map; there are as many clients as connected; each asked exactly what it called while it could and was told the replies of its own calls in order, all of them when nothing is on the wire, in packets within the limit |

## Left out

- LZ4 dictionary, streaming, partial, `_fast`, limited-output and obsolete entry points, big-endian and 32-bit variants: nothing in the repository calls them.
- Lz4Decompressor.DecompressSafe: the bytes produced for a match with offset zero are not specified; where it reads outside its input, memory is assumed to be there.
- DataPoint.Sort: says nothing about the order of points with equal times, because qsort does not.
- Series.TimeSeries.Write: takes points of at least eight bytes with times below 0xFFFFFFFFFFFFFFFE, the range that survives reopening; `RecoverCount` shows the bound is tight.
- Series.TimeSeries.constructor: fopen, mmap and allocation do not fail, fwrite writes what it is given, and nothing is said about crashes or msync.
- Database.Database.GetOrLoad: the directory can be opened, and only names made by this database extend the prefix of an id; a foreign file with such a name is outside the model.
- FileNames.StrtolOfFormat: leading blanks, a plus sign and overflow of strtol are not modelled, since no name this database makes has them.
- Server.Feed: after a copy that overlaps itself the bytes are taken to be moved as memmove would, since C says nothing about them.
- Server.Connection.OnDataRead: takes reads that fit the buffer (`Feed` decides when they do) and total sizes of at least the header; end of stream and the libuv connection life cycle are not modelled.
- Database.Database.Write: takes the same points as `Series.TimeSeries.Write`.
- Database.Database.GetOrCreate: takes point sizes of at least eight bytes.
- ClientHandler.HandleWrite: takes write requests with such points only.
- ClientHandler.ProcessMessage: takes write requests with such points only.
- EndToEnd.ClientWrite: takes batches of such points that fit a packet.
- Session.Session.Receive: a received header must announce a payload of at least one byte; the signed overflow of the count is taken to wrap.
- Session.Session.Request: the two halves of `session_send_with_simple_response` are two methods, with the server's turn between them.
- EndToEnd.ClientReadLatest: makes one `session_read_next` call, because a second one would wait for a packet that is never sent.
- EndToEnd.ClientRead: series with points of 2^31 - 13 bytes or more, whose packets the client refuses, are excluded.
- Conversation.Converse: starts from a directory whose points fit a packet, such as an empty one; a client's sends and the server's sends succeed, a reply arrives as soon as it is sent, and a restart drops what was under way on its connections.
- Connecting, sockets, the event loop, configuration, the command line, CSV conversion, logging and the other clients: plumbing or easy members.
