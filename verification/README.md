# Heka in Dafny

A model of the parts of Heka that move bytes and messages through bounded buffers,
files and goroutines, and proofs of what they promise: that nothing is lost,
repeated or reordered. `dafny verify dfyconfig.toml` checks the whole project.

| files | what they model |
|---|---|
| `Bytes`, `Radix`, `Varint`, `Wire`, `WireLayout`, `WireCodec`, `WireDecoder` | the protobuf codec of Header, Field and Message (the Protocol Buffers Encoding guide, sections "Base 128 Varints", "Message Structure" and "Packed Repeated Fields") |
| `Framing`, `HekaStream`, `Splitters` | Heka's stream framing, signing and the splitters |
| `SplitterRunner` | the growing and compacting read buffer behind every input |
| `Decimal`, `QueueFiles`, `QueueBuffer`, `QueueReader` | the disk queue: files, cursors, checkpoints, sizes, reading through a buffer |
| `RingBuffer`, `LogPosition`, `Logstream` | the logstreamer: reading rotated files as one stream |
| `PackPool` | reference-counted packs between pools, router, matchers and plugins |
| `Sorting`, `Dependencies`, `FileOrder` | decoder dependency order, log file order |
| `Matcher`, `MatcherLaws` | message matcher compilation and evaluation, and what its tests mean |
| `FileOutput`, `SmtpLayout` | the file writer's two goroutines, the base64 mail body (section 6.8 of RFC 2045) |

How the modelling is done:

- Code that changes things step by step is a method or a class, proved against a
  specification function; the laws are lemmas about those functions.
- Goroutines (`PackPool`, `FileOutput`) are state machines: `Next` lists every step of
  every goroutine, a run is any interleaving of them, and the main theorems hold of
  every state of every run.
- The machine's integer widths are written out as remainders. A float64 is its 64-bit
  pattern. HMAC, SHA-1, regular expressions and float64 arithmetic are parameters.
- The file system is a map from names to bytes. Readers, failing writes, and log files
  growing or appearing between any two steps of the log reader are parameters too.

Where the code does not do what one would expect of it, the model follows the code and
states exactly when the expectation holds:

- `Framing.AgreesIffFresh`, `SplitterRunner.StaleDelivery`: the framing splitter keeps a
  header between calls. Data that ends inside a frame leaves a length in it, and a later
  separator whose block is not closed like a header is cut by that length. It changes
  nothing if and only if that is not the case, and never on streams of frames.
- `HekaStream.BrokenHeader`: a header that does not decode, but whose length came before the
  fault, is used all the same, and its length is not held against the limit.
- `SplitterRunner.SRunner.SplitStream`, `SplitterRunner.CutLineExample`: a record over the
  limit is cut off when the buffer is full, and what follows is searched anew, so its end is
  delivered as a record. `SplitterRunner.ManageableIffSieved`: the streams that come out as
  they are are exactly those without such a record, or such an end.
- `SplitterRunner.RoomIffBounded`, `SplitterRunner.OverlargeExample`: the reader can be
  handed an empty slice if and only if the buffer was configured larger than the largest
  record.
- `Decimal.CursorRoundTrip`, `Decimal.CursorOverflow`: a queue cursor can be read back if
  and only if its file number is below 2^32; it is printed from a 64-bit number.
- `QueueBuffer.Queue.UpdateCursor`, `QueueBuffer.Queue.UpdateAll`: when the checkpoint cannot
  be written on a change of file, the files passed stay, and this reader never deletes them.
- `Logstream.EmptyFileRace`, `Logstream.AnswersIffUnique`, `Logstream.Stream.Read`: if an open,
  empty log file grows between the two size look-ups of NewerFileAvailable, the position is
  renamed to the first file of the list. The record becomes wrong if and only if that happens
  to a file that is not the first. If no two contents have the same hash, such a stream goes
  on rightly behind its file if and only if some of it was flushed and no earlier file has the
  same 500 bytes before the same offset. Otherwise, at the end of its file with nothing more
  coming, it is sent back and delivers bytes again (`Logstream.RepeatedByte`,
  `Logstream.FlushedByte`).
- `HekaStream.PanicIffOddHash`: a hash function that is neither MD5 nor SHA-1 panics.
- `Matcher.NilTests`, `Matcher.StrayTypeExample`: `== NIL` and `!= NIL` are complements
  unless the field has a value type outside the enumeration, when both are false.
- `Matcher.EqualityTests`, `Matcher.BooleanExample`: `==` and `!=` with a literal are
  opposites only for a value that exists and has the literal's kind. On a boolean field both
  give the same answer.
- `Matcher.Match`: the grammar admits several expressions in a row; the last one decides
  and the others are ignored.

## Model

| member | source | states |
|---|---|---|
| Varint.RoundTrip | message/message.pb.go:1422-1430 | decoding any encoded number followed by anything gives the number and how many bytes it took |
| Varint.Sov | message/message.pb.go:1143-1152 | the computed size is the number of bytes the encoder writes |
| Varint.PutVarint | message/message.pb.go:1422-1430 | exactly the encoding lands at the offset, the rest of the buffer is untouched |
| Varint.GetVarint | message/message.pb.go:332-346 | the shift loop reads any input as the mathematical decoding does, truncated to the width of the variable; None exactly when the input ends too early |
| Varint.EncodeLength64 | message/message.pb.go:1143-1152 | a 64-bit word never takes more than ten bytes |
| Wire.HeaderRoundTrip | message/message.pb.go:327-464 | decoding the encoding of any Header gives back that Header |
| Wire.FieldRoundTrip | message/message.pb.go:465-770 | decoding the encoding of any Field gives back that Field: optional parts, both kinds of repeated bytes, packed integers (negative ones too), doubles and bools |
| Wire.MessageRoundTrip | message/message.pb.go:771-1023 | decoding the encoding of any Message, with any nested Fields and negative timestamp, severity or pid, gives back that Message |
| Wire.ReadBackIntegers | message/message.pb.go:1261-1280 | a packed list of int64 unpacks to itself, two's complement included |
| Wire.FixedRoundTrip | message/message.pb.go:1404-1413 | eight little-endian bytes give back the 64-bit pattern |
| WireLayout.VarintDigits | message/message.pb.go:1422-1430 | a varint is the digits to base 128, lowest first, the high bit on all but the last |
| WireLayout.FixedDigits | message/message.pb.go:1404-1413 | byte i of a float64 is the digit i of its pattern to base 256 |
| WireLayout.HeaderTags | message/message.pb.go:1171-1198 | a Header with one field set is that field's tag byte, 08, 18, 22, 28 or 32, and its value |
| WireLayout.HeaderInOrder | message/message.pb.go:1166-1202 | any Header is its fields one after the other in the order of their numbers |
| WireLayout.FieldTags | message/message.pb.go:1219-1235 | name, value type and representation go under 0a, 10 and 1a |
| WireLayout.FieldListTags | message/message.pb.go:1236-1258 | every string goes under 22 and every byte string under 2a, in list order |
| WireLayout.FieldPackedTags | message/message.pb.go:1259-1314 | integers, doubles and booleans go in one block under 32, 3a and 42: their varints, patterns or bytes in list order |
| WireLayout.FieldInOrder | message/message.pb.go:1214-1318 | any Field is its parts one after the other in the order of their numbers |
| WireLayout.MessageTags | message/message.pb.go:1335-1385 | a Message with one field set is that field's tag byte, 0a to 4a, and its value |
| WireLayout.NestedTags | message/message.pb.go:1386-1397 | every nested Field goes under 52 with its own encoding, in list order |
| WireLayout.MessageInOrder | message/message.pb.go:1330-1402 | any Message is its fields one after the other in the order of their numbers |
| WireLayout.UnpackedIntegers | message/message.pb.go:592-641 | integers in records of their own are appended in their order, whatever is there already |
| WireLayout.UnpackedDoubles | message/message.pb.go:642-697 | so are doubles |
| WireLayout.UnpackedBools | message/message.pb.go:698-747 | so are booleans |
| WireLayout.PackedOrNot | message/message.pb.go:592-747 | in any input a packed list and the same list unpacked decode to the same |
| WireLayout.WrongWireType | message/message.pb.go:327-1023 | a tag whose wire type does not fit its number ends the decoding with an error and changes nothing |
| WireCodec.FieldSize | message/message.pb.go:1050-1093 | Field.Size is the exact length of what is written |
| WireCodec.MessageSize | message/message.pb.go:1095-1141 | Message.Size, nested Fields included, is the exact length of what is written |
| WireCodec.MarshalHeaderTo | message/message.pb.go:1166-1202 | writes exactly the encoding of the Header, in bounds, touching nothing behind it |
| WireCodec.PackIntegers | message/message.pb.go:1261-1280 | the scratch buffer of the packed list holds exactly the varints of the list |
| WireCodec.MarshalFieldTo | message/message.pb.go:1214-1318 | writes exactly the encoding of the Field, in bounds, touching nothing behind it |
| WireCodec.MarshalMessageTo | message/message.pb.go:1330-1402 | writes exactly the encoding of the Message, in bounds, touching nothing behind it |
| WireCodec.MarshalMessage | message/message.pb.go:1320-1328 | a buffer of Size() bytes is filled exactly |
| WireDecoder.UnpackIntegers | message/message.pb.go:592-628 | the loop over a packed block appends what the reference decoder reads from it, or fails when it does |
| WireDecoder.UnmarshalHeader | message/message.pb.go:327-464 | on every input, truncated or of the wrong wire type too, the loop gives the reference decoding and its verdict |
| WireDecoder.UnmarshalField | message/message.pb.go:465-770 | on every input the loop gives the reference decoding and its verdict |
| WireDecoder.UnmarshalMessage | message/message.pb.go:771-1023 | on every input the loop gives the reference decoding and its verdict |
| Framing.HekaFramingSplitter.DecodeHeader | message/message.go:60-75 | the header object and the verdict after decoding over an old header, all four outcomes |
| Framing.HekaFramingSplitter.ProbeHeader | pipeline/splitters.go:227-249 | for any header an earlier call has left, how the bytes from a separator on are judged and what is cached afterwards |
| Framing.HekaFramingSplitter.FindRecord | pipeline/splitters.go:221-256 | for any buffer and any cached header, how far it gets, the record, and the header it leaves (see AgreesIffFresh for what that means) |
| Framing.SearchBounds | pipeline/splitters.go:221-256 | a record is the slice ending where the search got to, and leaves no header cached |
| Framing.AgreesIffFresh | pipeline/splitters.go:221-256 | the cached header changes nothing if and only if it is not stale: no length is cached, or the block at the first separator is closed by a unit separator or not all there yet |
| Framing.StaysFresh | pipeline/splitters.go:221-256 | a header fresh for a stream is fresh for every part that has arrived, and what a search of the part leaves is fresh for what remains |
| Framing.StaleExample | pipeline/splitters.go:221-256 | data that ends inside a frame caches its length, by which eight bytes that hold no frame are then delivered as a record |
| Framing.FrameBounds | pipeline/splitters.go:221-256 | a record found is the slice ending where the search says it got to |
| Framing.FoundStays | pipeline/splitters.go:221-256 | a record found in a prefix of the data is the record found in all of it |
| Framing.SkipPrefix | pipeline/splitters.go:221-256 | bytes without a record separator in front change nothing but the count |
| Framing.SearchResumes | pipeline/splitters.go:221-256 | dropping the bytes a fruitless search stepped over and searching again with more data finds what one search over all of it finds |
| Framing.StallMeansLong | pipeline/splitters.go:221-256 | a search stuck at its first byte with a whole header in view waits for a record longer than what it has |
| HekaStream.CreateHekaStream | client/encoders.go:62-112 | succeeds exactly when the message and the header are within their limits, and then the buffer, reused or new, holds exactly the frame; on failure it is untouched |
| HekaStream.FrameFound | client/encoders.go:88-111 | behind any separator-free garbage and before any other data, the frame of any message within the limits is the record found |
| HekaStream.FrameFresh | client/encoders.go:100-111 | a frame behind separator-free garbage is judged afresh whatever header is cached |
| HekaStream.OversizeSteppedOver | message/message.go:60-75 | a header that announces more than the limit is stepped over, whatever length is cached |
| HekaStream.BrokenHeader | pipeline/splitters.go:235-249 | a header that fails to decode behind its length announces that length, past the limit too |
| HekaStream.UnsignedOverhead | client/encoders.go:88-99 | framing an unsigned message adds at most nine bytes |
| HekaStream.UnframeUnsigned | pipeline/splitters.go:258-274 | an unsigned message comes out of its frame as it went in, whoever is registered |
| HekaStream.UnframeSigned | pipeline/splitters.go:162-190 | a signed message comes out with its signer's name if and only if the key registered for that name and version gives the same digest; otherwise it is rejected |
| HekaStream.KeysDiffer | pipeline/splitters.go:166-174 | every version of a signer has a key of its own |
| HekaStream.SkipAuthUnframes | pipeline/splitters.go:258-264 | without authentication every record, signed or not, gives its message and no signer |
| HekaStream.PanicIffOddHash | pipeline/splitters.go:176-186 | checking a signature panics if and only if the header names a registered signer and a hash function that is neither MD5 nor SHA-1; headers CreateHekaStream writes never do |
| Splitters.FindTokens | pipeline/splitters.go:80-98 | the loop finds the record that ends at the count-th delimiter |
| Splitters.TokenEndIff | pipeline/splitters.go:80-98 | a token record ends with a delimiter and is the shortest that holds as many as configured, 0 meaning one |
| Splitters.FindStays | pipeline/splitters.go:80-98 | more data behind never changes a record already found, for token and framing splitters |
| Splitters.FindResumes | pipeline/splitters.go:80-98 | a fruitless search can be resumed where it stopped, for token and framing splitters |
| Splitters.StallIsLong | pipeline/splitters.go:80-98 | a search stuck at its first byte over some data finds, with any more behind it, either still nothing or a record longer than that data |
| Splitters.FreshRecords | pipeline/splitters.go:221-256 | with a header that is fresh at the start, repeated calls find the records and the tail of the stream itself |
| Splitters.FramesComeBack | pipeline/splitters.go:221-256 | any list of messages, signed or not, with any separator-free garbage around them, splits into exactly their frames in order and leaves no tail |
| Splitters.FramesFresh | pipeline/splitters.go:221-256 | such a stream is fresh for any header cached before it |
| SplitterRunner.RoomIffBounded | pipeline/splitter_runner.go:163-192 | the reader always gets a non-empty slice if and only if the buffer is no larger than the largest record |
| SplitterRunner.OverlargeExample | pipeline/splitter_runner.go:163-192 | eight bytes without a delimiter fill a buffer of 8 when records are at most 4, and leave the reader no room |
| SplitterRunner.NeverFull | pipeline/splitter_runner.go:163-192 | on a stream whose records fit, the buffer never fills up without a record in it |
| SplitterRunner.StaleDelivery | pipeline/splitter_runner.go:290-332 | two calls of SplitBytes, the first ending inside a frame: the second delivers bytes that by themselves hold no record |
| SplitterRunner.ManageableSieved | pipeline/splitter_runner.go:163-251 | on a stream whose records fit, the sieve lets through exactly the records and leaves the tail |
| SplitterRunner.ManageableIffSieved | pipeline/splitter_runner.go:163-251 | and on no other stream |
| SplitterRunner.SieveBounds | pipeline/splitter_runner.go:163-251 | nothing over the limit comes out or is left |
| SplitterRunner.SieveCut | pipeline/splitter_runner.go:163-216 | a full buffer without a record is cut off and the rest sieved anew |
| SplitterRunner.CutLineExample | pipeline/splitter_runner.go:163-216 | a line of three letters and room for two bytes: its last letter comes out as a line |
| SplitterRunner.ClipLaws | pipeline/splitter_runner.go:315-324 | kept, every record comes out as far as the limit allows; dropped, exactly those within it, in their order |
| SplitterRunner.TailExample | pipeline/splitter_runner.go:350-361 | an unterminated end is delivered exactly if that was asked for |
| SplitterRunner.UsedRest | pipeline/splitter_runner.go:290-332 | behind the count SplitBytes returns there is no record, and the same tail |
| SplitterRunner.UsedLast | pipeline/splitter_runner.go:290-332 | the bytes up to it end with the last record |
| SplitterRunner.SRunner.constructor | pipeline/splitter_runner.go:65-100 | the runner starts empty, asking for data, its splitter with no header cached |
| SplitterRunner.SRunner.GetRemainingData | pipeline/splitter_runner.go:146-153 | hands out the unconsumed bytes and leaves none; the header the splitter has cached stays |
| SplitterRunner.SRunner.FindRecord | pipeline/splitters.go:49-98 | the configured splitter object is the one that is asked, with the header it has cached |
| SplitterRunner.SRunner.SetMinimumBufferSize | pipeline/splitter_runner.go:155-161 | the buffer grows to the size asked for and keeps its bytes |
| SplitterRunner.SRunner.MakeRoom | pipeline/splitter_runner.go:163-188 | compacting or growing keeps the unconsumed bytes; only a full buffer of the largest size is dropped, and counted |
| SplitterRunner.SRunner.Fill | pipeline/splitter_runner.go:163-192 | the bytes read land right behind the unconsumed ones; the buffer stays within its bound; dropped bytes are reported |
| SplitterRunner.SRunner.GetRecordFromStream | pipeline/splitter_runner.go:194-251 | bytes taken from the reader are always the bytes reported plus the bytes pending; what is pending and unread afterwards is what was before, less the bytes reported; on a stream whose records fit, and with no stale header cached, the record is the next of the stream, the header left is not stale either, and EOF comes only when no whole record is left; with a full buffer the record is the whole buffer if truncated records are kept, and nothing otherwise |
| SplitterRunner.SRunner.SplitStream | pipeline/splitter_runner.go:334-363 | it terminates with EOF and, for every way the reader chops the stream and every header cached before that is not stale for it, delivers the records of the whole stream and its tail if asked to; on any other stream exactly what Sieved lets through: records within the limit whole, anything over it cut off and kept or dropped; without a splitter, all bytes |
| SplitterRunner.SRunner.SplitBytes | pipeline/splitter_runner.go:290-332 | for any header cached before: the records of the data, cut or dropped when too long, and the header left for the next call; when that header was not stale and all fit, exactly what SplitStream delivers; fails exactly when there is nothing; the count returned is the end of the last record, or of the data if its tail was delivered |
| SplitterRunner.FramedManageable | pipeline/splitter_runner.go:334-363 | a stream of frames never runs into the record limit and is fresh for any cached header, so the frames themselves are what is delivered |
| Decimal.DecimalDigits | pipeline/queue_buffer.go:727-727 | a printed number is its digits to base 10, highest first, without idle zeros |
| Decimal.SignedText | pipeline/queue_buffer.go:745-748 | an offset reads as itself with or without a sign, within 64 bits |
| Decimal.CursorRoundTrip | pipeline/queue_buffer.go:731-751 | a printed cursor parses back to its id and offset if and only if the id is below 2^32 |
| Decimal.CursorOverflow | pipeline/queue_buffer.go:731-751 | the cursor of queue file 2^32 does not parse |
| QueueFiles.NextFrame | pipeline/queue_buffer.go:667-690 | at the start of the frames of any messages, whatever header is cached, the record found is the first frame and carries the first message |
| QueueFiles.BoundaryOrder | pipeline/queue_buffer.go:345-360 | offsets between records are ordered as the records are |
| QueueFiles.FromBoundary | pipeline/queue_buffer.go:275-309 | the bytes from the offset behind a record on are the frames of the records after it |
| QueueBuffer.AddComplement | pipeline/queue_buffer.go:384-398 | adding the two's complement subtracts exactly, modulo 2^64 and also for size 0 |
| QueueBuffer.Queue.constructor | pipeline/queue_buffer.go:80-121 | a new queue holds nothing and satisfies the invariant; an update count of 0 means 1 |
| QueueBuffer.Queue.NewestId | pipeline/queue_buffer.go:791-817 | the largest file number, 0 for an empty directory |
| QueueBuffer.Queue.StartFeeder | pipeline/queue_buffer.go:132-163 | a restarted feeder begins a new file; nothing queued or read changes |
| QueueBuffer.Queue.RollQueue | pipeline/queue_buffer.go:165-175 | the next file is started; nothing queued or read changes |
| QueueBuffer.Queue.QueueRecord | pipeline/queue_buffer.go:180-217 | the message is appended to the queue exactly when it reports success; which error it reports and when it starts a new file, exactly; a failed or partial write leaves queue and size as they were; no file loses bytes |
| QueueBuffer.Queue.GetFileFromId | pipeline/queue_buffer.go:311-343 | the file itself or else the oldest one after it, none exactly when there is none |
| QueueBuffer.Queue.InitReadFile | pipeline/queue_buffer.go:275-309 | where a reader starts, for every checkpoint, readable or not, and every directory |
| QueueBuffer.Queue.StartReader | pipeline/queue_buffer.go:240-273 | a fresh reader stands exactly where the checkpoint says, or at the start of the queue |
| QueueBuffer.Queue.NextRecord | pipeline/queue_buffer.go:667-729 | the next queued message, whichever file it is in, with the cursor that stands behind it; NoRecord exactly when all queued messages have been read; it terminates |
| QueueBuffer.Queue.WriteCheckpoint | pipeline/queue_buffer.go:402-416 | succeeds exactly when all its calls do, and then the checkpoint is the cursor; otherwise the old place still counts as saved, and the file is as it was only if it could not be opened |
| QueueBuffer.Queue.UpdateCursor | pipeline/queue_buffer.go:345-400 | for acknowledgements in any order the cursor never moves back nor past the reader; exactly the files wholly before it are deleted, and only after the checkpoint is written; when a checkpoint error is reported, exactly; files left behind by it or earlier stay |
| QueueBuffer.Queue.DeletePassed | pipeline/queue_buffer.go:378-399 | deletion takes away exactly the files passed and exactly their sizes |
| QueueBuffer.Queue.UpdateAll | pipeline/queue_buffer.go:345-400 | over any later acknowledgements, in any order and with any failures, every file below the cursor, as a failed checkpoint leaves them, stays in the directory |
| QueueBuffer.Queue.Reopen | pipeline/queue_buffer.go:240-309 | a fresh reader on any cursor handed out, if no file from it on has been deleted, stands right behind the message that carried it |
| QueueBuffer.Queue.Drain | pipeline/queue_buffer.go:667-729 | reading until NoRecord returns exactly the queued messages not read before |
| QueueBuffer.Queue.Replay | pipeline/queue_buffer.go:240-309 | started again from a cursor, the reader returns exactly what was queued after the message that carried it |
| QueueBuffer.Queue.Safety | pipeline/queue_buffer.go:345-400 | in every reachable state: what was read is a prefix of what was queued; checkpoint, cursor, reader and writer stand in this order; the checkpoint lags by at most the configured count while writes succeed; the queue size is the exact total of the files, and neither it nor any file is more than nine bytes over its limit |
| QueueReader.FileOrderly | pipeline/splitters.go:221-257 | a queue file splits into records within the limit, and no header kept from another file spoils it |
| QueueReader.BufferReader.constructor | pipeline/queue_buffer.go:240-273 | an empty buffer, the file opened at the recorded offset |
| QueueReader.BufferReader.Fetch | pipeline/queue_buffer.go:678-703 | a call of the splitter runner, for any sizes in which the file hands out its bytes, gives nothing and counts nothing, or exactly the frame at the recorded offset and its length; at the end of the file nothing is pending |
| QueueReader.BufferReader.NextFile | pipeline/queue_buffer.go:681-699 | on a change of file nothing is pending, so starting again at offset 0 loses nothing |
| QueueReader.BufferReader.NextRecord | pipeline/queue_buffer.go:667-729 | recorded offset plus pending bytes is always where the file has been read to; the message and the cursor are those of Queue.NextRecord, NoRecord only when all queued messages have been read; a request for more data changes nothing recorded |
| QueueReader.BufferReader.Feed | pipeline/queue_buffer.go:180-217 | a message queued while bytes are pending keeps all of this |
| QueueReader.BufferReader.Acknowledge | pipeline/queue_buffer.go:345-400 | so does an acknowledgement: the file being read is never deleted |
| QueueReader.BufferReader.Drain | pipeline/queue_buffer.go:667-729 | calling until NoRecord terminates and returns exactly the queued messages not read before |
| QueueBuffer.SizesDelete | pipeline/queue_buffer.go:384-398 | the size accounting survives a deletion |
| QueueBuffer.SizesAppend | pipeline/queue_buffer.go:205-216 | the size accounting and both limits survive an append |
| RingBuffer.RingRemembers | ringbuf/ringbuf.go:25-51 | after any list of writes the ring holds the last bytes of everything written, as many as fit |
| RingBuffer.Ringbuf.constructor | ringbuf/ringbuf.go:18-20 | a new ring of positive size is empty |
| RingBuffer.Ringbuf.Write | ringbuf/ringbuf.go:25-51 | the contents become the end of old contents and data together, however often the copy wraps round |
| RingBuffer.Ringbuf.Read | ringbuf/ringbuf.go:55-71 | copies out the longest prefix of the contents that fits, and nothing else; the ring is unchanged |
| LogPosition.FlushKeeps | logstreamer/reader.go:493-504 | the zero-padded ring still equals the 500 bytes before the position after any flush |
| LogPosition.GrowthKeeps | logstreamer/reader.go:107-125 | and the file growing behind the position neither makes nor breaks the match |
| LogPosition.SeekReadsWindow | logstreamer/reader.go:413-481 | the two seek branches both fill the buffer with those 500 bytes |
| LogPosition.FoundAgain | logstreamer/reader.go:413-481 | with an injective hash a saved position is accepted in a file if and only if the file reaches as far and has the same 500 bytes before it |
| LogPosition.UnchangedPrefixAccepted | logstreamer/reader.go:413-481 | a file with the same bytes up to the position is accepted, for any hash, leaving the reader at the position with a matching ring |
| LogPosition.TailMatches | logstreamer/reader.go:135-164 | SetToTail yields a position at the end of the file that is recognised there later |
| Logstream.IndexOfListed | logstreamer/filehandling.go:195-202 | every name in a list without repetition is found at its own index |
| Logstream.NewerIsNext | logstreamer/reader.go:196-289 | for any two sizes, unless the first is 0 and the second is not, the newer file is the next of the list, and the position survives the re-seek |
| Logstream.EmptyFileRace | logstreamer/reader.go:220-262 | if the open file was empty at the first look and not at the second, the position is renamed to the first file of the list, which is right if and only if it was the first |
| Logstream.EmptyFileRaceExample | logstreamer/reader.go:220-262 | a concrete case in which the file being read is reported as newer than itself |
| Logstream.StaysMisnamed | logstreamer/reader.go:196-289 | as long as nothing was flushed, the wrong name is never noticed: the second file of the list is reported as newer, whichever is open |
| Logstream.AcceptedIn | logstreamer/reader.go:413-481 | a place of one file is accepted in another exactly if nothing was flushed or the 500 bytes before it are the same there |
| Logstream.RenamedIffUnique | logstreamer/reader.go:196-289 | a place recorded under the name of an earlier file gets its own name back if and only if something was flushed and no earlier file looks the same there; otherwise it stays under an earlier name |
| Logstream.AnswersIffUnique | logstreamer/reader.go:196-289 | the file then reported as newer is the next one in the first case, and one that is not newer in the second |
| Logstream.UniqueOn | logstreamer/reader.go:196-289 | which of the two it is does not change while files grow and appear |
| Logstream.NewerAgain | logstreamer/reader.go:660-672 | asked again with nothing changed, NewerFileAvailable gives the same answer, so the second look of readBytes never retries for ever |
| Logstream.TracksOn | logstreamer/reader.go:530-688 | everything the open stream knows stays true while the last file grows and newer files appear |
| Logstream.Rotate | logstreamer/reader.go:640-688 | moving on from a file read to its end, a newer one having been listed before, skips and repeats nothing |
| Logstream.Stream.FlushBuffer | logstreamer/reader.go:493-504 | the recorded position moves by the flushed bytes; buffer, ring, file and stream stay consistent |
| Logstream.Stream.SavePosition | logstreamer/reader.go:170-192 | the journal holds the position with the hash of its ring |
| Logstream.Stream.BufferSave | logstreamer/reader.go:507-528 | buffered bytes are exactly those read past the recorded position, also when it flushes early |
| Logstream.Stream.NewerFileAvailable | logstreamer/reader.go:196-289 | with the files changing between its steps: the next file of the list; what is recorded becomes wrong if and only if the open file was empty at the first look, not at the second, and is not the first of the list; and, for a hash without collisions, right again if and only if the place is recoverable |
| Logstream.Stream.ReadBytes | logstreamer/reader.go:567-688 | with the files changing between all its steps: the next bytes of the concatenation of all files, none lost and none twice across rotations, as long as what is recorded is right; end of file only when there is nothing more; the recursion terminates. With a wrong record, for a hash without collisions: a recoverable place never leads astray; in files that stand still the stream is sent back if and only if it is at the end of its file and the place is not recoverable, and then bytes come again. For any hash: it goes where Ahead leads, and stays where it is when that is nowhere |
| Logstream.Stream.MoveOn | logstreamer/reader.go:640-688 | with a right record it moves to the next file at the same place; from an unrecoverable place to one strictly before it; a retry only if something changed meanwhile |
| Logstream.Stream.Open | logstreamer/reader.go:530-561 | a recorded place is resumed under its own name if that file accepts it, or else in the oldest file that does; only if none does, or nothing is recorded, is the oldest file read from its start |
| Logstream.Stream.Read | logstreamer/reader.go:530-564 | the same for every call; the first one goes on exactly where Open says; at an end of file the recorded name and offset are in the journal; besides, whenever the last of several files, empty and at its end, grows between the looks, that call returns the new bytes and leaves the record wrong |
| Logstream.LocateIsFirst | logstreamer/reader.go:333-358 | the search through the list finds the first file that accepts the place, or nothing exactly if none does |
| Logstream.OpensAtOnly | logstreamer/reader.go:530-561 | where a stream is opened is determined by the recorded place and the files |
| Logstream.RenamedFileResumed | logstreamer/reader.go:314-358 | however files were renamed or added while the reader was down, a place is resumed in the file that still begins the same, unless its own name or an older file looks the same there |
| Logstream.ConsumedIsPrefix | logstreamer/reader.go:530-688 | what has been consumed is always a prefix of all files in list order |
| Logstream.ReadAll | logstreamer/reader.go:530-564 | reading to the end, in pieces of any size, yields the concatenation of all files |
| Logstream.Resume | logstreamer/reader.go:59-92 | a stream built from the journal of another, after any further growth, goes on exactly at the saved position |
| Logstream.ReadsAgain | logstreamer/reader.go:567-688 | a stream that got lost with nothing flushed, at the end of its file, delivers the stream again from the second file on |
| Logstream.RepeatedByte | logstreamer/reader.go:211-262 | two files, the second growing from empty between the two looks, nothing flushed: three calls of Read return x, y, y where the files hold x, y |
| Logstream.FlushedByte | logstreamer/reader.go:211-262 | the same with the byte flushed before the next Read: x, y and no more |
| PackPool.ReleasedOk | pipeline/pipeline_runner.go:221-239 | after a recycle the count is again the number of references; only the last one out finds it at zero |
| PackPool.HolderIsLive | pipeline/pipeline_runner.go:221-231 | nobody holds a pack that is in its pool or on its way there |
| PackPool.RoutedIsLive | pipeline/router.go:178-197 | during the whole fan-out the router's own reference keeps its pack alive |
| PackPool.StepKeeps | pipeline/router.go:129-230 | every step of every goroutine, plugins being made, started and added included, keeps both invariants |
| PackPool.PackSafety | pipeline/pipeline_runner.go:205-239 | in every interleaving: a pack's count is the number of its holders; it is in its pool only when nobody holds it, and then clean; it came back exactly as often as it left; pool plus packs in flight is the number made |
| PackPool.ReturnNeverBlocks | pipeline/pipeline_runner.go:308-316 | the send on the recycle channel always finds room |
| PackPool.FanOutSafe | pipeline/router.go:178-197 | a quick matcher cannot recycle a pack under the router, and the router never sends to a matcher it closed |
| PackPool.EveryMatcherOnce | pipeline/router.go:183-195 | in every run, between the router's receiving a pack and its recycling it, every matcher then listed, filter or output, is sent that pack exactly once, and no other is sent anything |
| PackPool.NeverStuck | pipeline/router.go:178-197 | in no run does a reference get stuck: a step takes it on from wherever it is, or the router is at work and has a step to take |
| PackPool.DyingReturns | pipeline/pipeline_runner.go:221-239 | a pack whose last reference is gone is on its way back to its pool |
| PackPool.DeliveredWhere | pipeline/router.go:363-395 | a matching pack is given to the feeder of a buffered plugin, which ends that reference, and goes into the channel of any other |
| PackPool.NoneLost | pipeline/plugin_runners.go:1031-1049 | no reference is ever lost: only matchers of started plugins are listed, those have a queue or a channel, so the last branch of deliver is never taken |
| PackPool.AddFilterMatcher | pipeline/router.go:137-155 | a matcher already there is not added again; a new one takes a free slot if there is one |
| PackPool.RemoveMatcher | pipeline/router.go:158-177 | clears exactly the slot of a known matcher and closes it; an unknown one is ignored |
| PipelinePacks.PipelinePack.constructor | pipeline/pipeline_runner.go:188-202 | a new pack is clean, with one reference and an empty message of severity 7 |
| PipelinePacks.PipelinePack.Zero | pipeline/pipeline_runner.go:205-219 | nothing of the last use is left, the message included, except the queue cursor of a pack that no buffered plugin owns |
| PipelinePacks.PipelinePack.Recycle | pipeline/pipeline_runner.go:221-231 | only the last reference sends a pack back, once and clean |
| Dependencies.GraphHolds | pipeline/multidecoder.go:69-75 | under a name stand the subs of the last decoder of that name |
| Dependencies.EdgeDescends | pipeline/multidecoder.go:69-103 | a ranked decoder ranks strictly above each of its listed subs |
| Dependencies.RankedIsAcyclic | pipeline/multidecoder.go:69-103 | once everything has a rank there is no cycle |
| Dependencies.Ranker.Rank | pipeline/multidecoder.go:77-103 | the memoised recursion terminates; its error means a real cycle; ranks once computed never change |
| Dependencies.OrderDependencies | pipeline/multidecoder.go:69-117 | an error if and only if the listed decoders have a cycle (a shared sub is not one); otherwise each listed decoder once, every listed sub before its users |
| FileOrder.Less | logstreamer/filehandling.go:256-275 | lexicographic comparison over the priority list, `^` keys reversed, missing keys 0 |
| FileOrder.FirstDifference | logstreamer/filehandling.go:256-275 | the first key under which two files differ decides: the smaller value first, with `^` the larger; none if they agree under all |
| FileOrder.BeforeIsOrder | logstreamer/filehandling.go:256-275 | for every priority list this is a strict weak order |
| FileOrder.ResolveDifferentiatedName | logstreamer/filehandling.go:532-541 | the parts found are replaced by their values, the others taken literally, in order |
| FileOrder.NameMade | logstreamer/filehandling.go:532-541 | a name is its parts in order, each replaced by the text found under it |
| FileOrder.FilterMultipleStreamFiles | logstreamer/filehandling.go:518-529 | a stream for every name that occurs, with exactly the files of that name in scan order |
| FileOrder.ExactlyOneStream | logstreamer/filehandling.go:518-529 | every file is in the stream of its name as often as it was scanned, and in no other |
| FileOrder.ScanForLogstreams | logstreamer/filehandling.go:458-513 | every name ends up either as a stream, a sorted permutation of its files, or as an error, the latter exactly when it has several files and no priority to sort by |
| Matcher.FindFirstField | message/message.go:478-488 | the first of the fields FindAllFields gives, or nothing |
| Matcher.FindAllFields | message/message.go:504-523 | all fields of the name in order, whenever the slice has to grow |
| Matcher.NilTests | message/message_matcher.go:171-245 | `!= NIL` holds if and only if the slot exists; `== NIL` is its complement if and only if the field's value type is one of the five known, whichever of the two look-ups is used |
| Matcher.StrayTypeExample | message/message_matcher.go:204-244 | a message that matches neither `== NIL` nor `!= NIL` |
| Matcher.EqualityTests | message/message_matcher.go:101-245 | `==` and `!=` with a string or number differ if and only if the value exists and has the literal's kind |
| Matcher.BooleanTest | message/message_matcher.go:225-241 | compared with a string or number by any operator, a boolean value matches if and only if it is false |
| Matcher.BooleanExample | message/message_matcher.go:225-241 | a message that matches both `==` and `!=` with the same string |
| Matcher.EvalIsMeaning | message/message_matcher.go:48-69 | short-circuit evaluation of the tree of any expression is plain AND and OR over its leaves |
| Matcher.Compile | message/message_matcher_parser.y:210-221 | the stack loop folds any list of nodes, popping nil from an empty stack |
| Matcher.PushPostfix | message/message_matcher_parser.y:210-221 | the nodes of any expression, in the order the grammar reduces them, compile to its tree on top of whatever was there |
| Matcher.Match | message/message_matcher.go:25-41 | a compiled specification matches a message exactly when its last expression holds of it |
| MatcherLaws.TextTotal | message/message_matcher.go:115-122 | of two different strings exactly one is less |
| MatcherLaws.TextTransitive | message/message_matcher.go:115-122 | the order of strings is transitive |
| MatcherLaws.LessIsPrecedes | message/message_matcher.go:115-122 | a string is less if at the first difference it has the smaller byte, or ends there |
| MatcherLaws.NthIsFound | message/message_matcher.go:183-203 | a reference leads to the field that has as many of its name before it as its index says |
| MatcherLaws.NoneIsFound | message/message_matcher.go:183-203 | and to none exactly if too few fields bear the name |
| MatcherLaws.TextLaws | message/message_matcher.go:71-122 | for each of the six string variables, absent ones empty, and every existing string or byte value of a field: what the six comparisons with a string say of it |
| MatcherLaws.PatternLaws | message/message_matcher.go:123-141 | what `=~` and `!~` say: the regular expression, the beginning or the end |
| MatcherLaws.TextAgainstOthers | message/message_matcher.go:101-114 | text never matches against a number, and always differs from NIL |
| MatcherLaws.NumberLaws | message/message_matcher.go:89-169 | for timestamp, severity (7 if absent), pid, and every existing integer or double of a field: what every operator says of it and a number |
| MatcherLaws.NumberAgainstOthers | message/message_matcher.go:144-158 | a number never matches against text, and always differs from NIL |
| MatcherLaws.BoolLaws | message/message_matcher.go:225-241 | a boolean against TRUE, anything else, or NIL; the operator matters for NIL only |
| MatcherLaws.ConstantLaws | message/message_matcher.go:171-178 | TRUE and FALSE stand for themselves |
| MatcherLaws.MissingLaws | message/message_matcher.go:183-230 | of a value that is not there only `== NIL` holds |
| FileOutput.StepKeeps | plugins/file/file_output.go:233-372 | every step of receiver and committer keeps the invariant |
| FileOutput.OfferedWhen | plugins/file/file_output.go:278-308 | on a message or the timer a batch is offered exactly when count, interval and operator say so |
| FileOutput.NeverOverdue | plugins/file/file_output.go:278-308 | in no run is a batch overdue: it has fewer messages than the flush count, or with AND the interval is not over |
| FileOutput.OutputSafety | plugins/file/file_output.go:233-372 | in every interleaving: each batch has one owner, and one handed back is empty; the file is an in-order prefix of what was accepted, all of it after a clean shutdown; acknowledged messages are in the file; the hand-back never blocks |
| FileOutput.CursorFollowsWrite | plugins/file/file_output.go:339-350 | the cursor updated is that of the last message of the batch, and the file ends exactly behind that message |
| SmtpLayout.SymbolsAre | plugins/smtp/smtp_output.go:181-181 | the alphabet is A-Z, a-z, 0-9, + and / |
| SmtpLayout.Decoded | plugins/smtp/smtp_output.go:181-181 | a base64 decoder gives back the contents, for every length |
| SmtpLayout.EncodeConcat | plugins/smtp/smtp_output.go:181-181 | base64 of whole groups of three bytes can be done in pieces |
| SmtpLayout.BodyLength | plugins/smtp/smtp_output.go:157-162 | the computed length is the exact length of the body, for every length of contents |
| SmtpLayout.LineLengths | plugins/smtp/smtp_output.go:32-33 | no line is longer than 76 characters, and all but the last have exactly 76 |
| SmtpLayout.StrippedBody | plugins/smtp/smtp_output.go:174-188 | without its line breaks the body is the base64 encoding of the contents |
| SmtpLayout.SmtpOutput.EncodeFullMsg | plugins/smtp/smtp_output.go:153-189 | for any contents and any earlier message in the buffer: header intact, then exactly the body, all writes in bounds |

## Left out

- Network, HTTP, AMQP, Kafka, IRC, Docker, Nagios, TLS and Elasticsearch plugins, the command-line tools, the Lua sandbox, the dashboard: plumbing over libraries.
- Configuration loading, reports, diagnostics, retry timing, stat accumulation, plugin restarts.
- The lexer and generated parser of matcher specifications: an expression is modelled from its parse on. RegexSplitter: rests on the regexp library.
- WireDecoder.UnmarshalHeader: fails on a field number it does not know, where the code skips it into `XXX_unrecognized` with the external `Skip`; a length of 2^63 or more, on which the code would panic, is an error here.
- WireDecoder.UnmarshalField: the same.
- WireDecoder.UnmarshalMessage: the same.
- Shutdown and stop paths of packs, the synchronous-decode closure, ticker messages of NewStreamOutput: what is said of packs is said of the running system.
- Framing.HekaFramingSplitter.DecodeHeader: fails on a header with a field number it does not know, which the code accepts.
- PackPool.PackSafety: a channel is the set of packs in it; their order and the capacity of channels other than the recycle channel are not modelled.
- SplitterRunner.SRunner.SplitBytes: takes data shorter than 2^32 bytes, because the code compares lengths cast to uint32.
- SplitterRunner.SRunner.GetRecordFromStream: readers return bytes only with nil or EOF.
- HekaStream.CreateHekaStream: the length field is the length modulo 2^32, as in the code; the laws about streams of frames are for messages shorter than that.
- QueueBuffer.Queue.QueueRecord: a failed write is always cut off again; QueueCorrupt, a failing file creation and a crash in the middle of a write are not modelled. Messages are shorter than 2^32 bytes.
- QueueBuffer.Queue.NextRecord: one atomic step that searches the bytes of the file directly; QueueReader.BufferReader.NextRecord does it through the read buffer. Neither unmarshals the message.
- QueueReader.BufferReader.NextRecord: the reader sees records as whole as the feeder writes them; read errors other than the end of file are not modelled.
- QueueBuffer.Queue.StartReader: takes a checkpoint file that the last write did not leave torn.
- QueueBuffer.Queue.UpdateCursor: takes the cursors that NextRecord handed out; a cursor text from elsewhere is not modelled.
- Logstream.Stream.NewerFileAvailable: the re-check of the hash and the search through the list are one step; files change before, between and after the two size look-ups and before the list is asked for the next file.
- Logstream.Stream.Read: files only grow at the end of the newest one, newer ones are added to the list, none is renamed, truncated or removed while being read; gzip files, permission errors and readers that return data together with EOF are not modelled.
- FileOutput.OutputSafety: writes and reopens succeed; the file is all that was written, across rotations; a failing encoder is a message without bytes.
- FileOrder.ScanForLogstreams: the directory scan, the age filter and the match parts of each file are inputs; sorting is by any correct sort.
- Matcher.Match: nil messages and nil entries in a message's field list are not modelled.
- The mail header, quoted-printable subjects (`encodeQuoPriLimitChars`) and `ESJsonEncoder`.
