# VSB logs: reading, merging, splitting, unwrapping, exporting

A VSB file is a log of vehicle network messages: a header and a run of 64-byte structures, each with optional extra
data. This project models what the library does with such logs, and proves what its users rely on:

* **Reading and writing** (`VsbFormat`, `VsbReader`, `VsbReading`, `VsbWriter`, `VsbDelivery`, `VsbRoundTrip`,
  `OutputFiles`, `VsbLegacy`, `MessageBytes`). The reader of versions 0x101 to 0x104 is a class with the fields of the
  library's reader: a message cursor and a second, cached cursor over the side section of extra data (EDP). Every method
  is proved against `Scan` and `ReadAt`, definitions that keep no state and walk the section from its start each time. On
  top of that come the exact results of writing and reading back, message by message and byte by byte, for files of all
  versions.
* **Merging and splitting** (`VsbMerge`, `MergedFiles`, `VsbSplit`, `VsbSplitTheorems`, `VsbSplitReadBack`). The merge
  of k files through a priority queue, and the two splitters; all of them drive the reader and write whole files.
* **Unwrapping CMP frames** (`CmpFrame`, `Reassembly`, `ReassemblyTheorems`, `ReassemblyDevices`, `LossTracker`,
  `KeyedSort`, `OutputBuffer`, `OutputInTime`, `Unwrapper`, `UnwrapperTheorems`, `CmpTraffic`, `NativeFrames`,
  `UnwrappedFiles`). Reassembly is proved against a definition over the history of accepted segments, the bounded-memory
  sorter against the stable sort of the whole stream, the loss detector against true sequence numbers; what that means
  for a log is told from the bytes and times of its messages.
* **Exporting** (`TimeDecoder`, `RowCodec`, `RowCache`, `TableContents`, `Pcap`, `PcapLogs`, `Export`). Time stamps, rows
  of the message table with the half-flushed cache in front of it, and pcap/pcapng files, which independent readers of
  those formats take apart.

`Bytes` holds machine integers and byte order, `VsbStruct` the message structure, `LoggedMessages` messages as structure
and extra bytes, `Progress` the callback.

## Where the code differs from its description

The model follows the code.

* A file with a header and no messages is read as one blank message (`VsbRoundTrip.EmptyFileReadsBlank`), because only
  the very first read is made without a look at the file size.
* The bounds checks for extra data count the structure twice. A 0x104 file therefore loses its last message when that
  has extra data (`RoundTripIff`), and a message of a file with a side section needs as many structures behind it as its
  extra data takes, and one more (`VsbLegacy.AllDelivered`). Splits, merged and unwrapped files lose messages that way:
  `SplitReadsBackIff`, `SplitBySizeReadsBackIff`, `MergedFileIsWhole` and `UnwrappedFileIsWhole` say when they do not.
* `SplitBySize` does not count the first message of each file. `PartSizeBound` gives the bound that holds instead of the
  limit, `BoundIsReached` and `SmallLimit` say how far it is met, and `FitIffRobust` and `FitIffNoSplit` when the limit
  itself is kept.
* Segments of an Ethernet frame are passed through as they are, also when the frame they belong to is put together
  (`SegmentsPassThrough`), although `VSBIODLL.h:268` describes them as replaced; only the end is (`EndIsReplacedIff`).
* Reassembly contexts are kept per stream id alone, loss trackers per device and stream id. `PerDeviceIffUnshared` says
  when that makes no difference to reassembly, `TwoDevicesMix` what happens when it does.
* The message number of a drop event is counted only when there is a callback (`UnwrapCMP.cpp:759`, `EventNumberIff`).
* The high word of a 10 ns stamp weighs ten times too much (`TimeDecoder.PositionalIff`), and the sort key of the
  unwrapper orders stamps of radix 2^16 by time exactly while their low word stays below 2^16 (`KeyOrderIffBound`).
* Appending to a pcapng file that does not exist leaves out its headers (`Pcap.AppendToNothing`).

## Model

| member | source | states |
|---|---|---|
| VsbStruct.UnpackPack | ICS_VSBIO/VSBIO/VSBStruct.h:29-61 | A structure written to memory is read back field by field, whatever follows it. |
| VsbStruct.PackUnpack | ICS_VSBIO/VSBIO/VSBStruct.h:29-61 | Any 64 bytes are the image of the structure they are read as. |
| TimeDecoder.TimeRoundTrip | ICS_VSBIO/VSBIO/MessageTimeDecoderVSB.cpp:81-131 | Storing any 64-bit time and decoding it rounds down to the 25 ns grid of 2007, so t' <= t < t' + 25 from 2007 on. |
| TimeDecoder.TimeFixedPoint | ICS_VSBIO/VSBIO/MessageTimeDecoderVSB.cpp:122-131 | A second trip changes nothing, for every 64-bit time. |
| TimeDecoder.KeyOrderIsEpochOrder | ICS_VSBIO/UnwrapCMP.cpp:727-729 | For stamps of one kind, without overflow and with the low word in range, sort keys and decoded times have the same order and the same ties. |
| TimeDecoder.KeyOrderIffBound | ICS_VSBIO/VSBIO/MessageTimeDecoderVSB.cpp:98-103 | For VCAN and NEOVI stamps with low words below a bound, key order is time order exactly when the bound is at most 65536. |
| TimeDecoder.PositionalIff | ICS_VSBIO/VSBIO/MessageTimeDecoderVSB.cpp:61-71 | The two words of a stamp are digits of one number of ticks for every kind but the 10 ns one, and there exactly when the high word is 0. |
| TimeDecoder.EpochByKind | ICS_VSBIO/VSBIO/MessageTimeDecoderVSB.cpp:81-136 | The time of every kind of stamp, written out in ticks since 2007, 13514 days after 1970, or milliseconds of the computer's clock. |
| KeyedSort.StableSortCorrect | ICS_VSBIO/UnwrapCMP.cpp:734-736 | The reference sort is sorted by key, a permutation, and keeps the arrival order within each key. |
| KeyedSort.SortedStableUnique | ICS_VSBIO/UnwrapCMP.cpp:734-736 | Those properties determine the result, so any stable sorting routine may stand in its place. |
| KeyedSort.RankIsPlace | ICS_VSBIO/UnwrapCMP.cpp:734-736 | The place of an arrival in the stable sort is the number of smaller keys plus the earlier arrivals of the same key. |
| OutputBuffer.SortingWriter.FlushBuffer | ICS_VSBIO/UnwrapCMP.cpp:731-742 | What is written and what stays after a whole or half flush. |
| OutputBuffer.SortingWriter.PushMessage | ICS_VSBIO/UnwrapCMP.cpp:744-755 | The written and the held messages stay those of the reference run over all arrivals. |
| OutputBuffer.SortingWriter.Finish | ICS_VSBIO/UnwrapCMP.cpp:917-918 | After the last flush the writer has received the output of the whole run. |
| OutputBuffer.RunConserves | ICS_VSBIO/UnwrapCMP.cpp:731-755 | Written and held messages together are a permutation of the arrivals, and the buffer stays below its capacity between messages. |
| OutputBuffer.OutputIsPermutation | ICS_VSBIO/UnwrapCMP.cpp:731-755 | The output of a whole run is a permutation of the arrivals. |
| OutputBuffer.UnsortedIsIdentity | ICS_VSBIO/UnwrapCMP.cpp:731-742 | Without sorting, the output is the arrivals in their order. |
| OutputBuffer.SortedOutputIffInTime | ICS_VSBIO/UnwrapCMP.cpp:722-755 | The output is the stable sort of the whole stream exactly when no message comes after a greater key has been written. |
| OutputBuffer.BoundedSortIsFullSort | ICS_VSBIO/UnwrapCMP.cpp:722-755 | The same as a condition on the input alone: every message arrives before the half flush that writes its place in the stable sort, over any number of half flushes. |
| OutputBuffer.LatenessBoundSuffices | ICS_VSBIO/UnwrapCMP.cpp:722-755 | It is enough that no message comes more than capacity minus flush size positions after its place. |
| OutputInTime.WrittenInTimeIff | ICS_VSBIO/UnwrapCMP.cpp:722-755 | For comparable stamps, the messages written are in order of their decoded times, equal times in order of arrival, exactly when every message arrives before the half flush that writes its place in time. |
| RowCodec.RowReader.ReadMessage | ICS_VSBIO/VSBIO/VSBDatabase.cpp:165-206 | The returned prefix of the reused vector is the message of this row, with no byte left over from an earlier row. |
| RowCodec.TripIsKept | ICS_VSBIO/VSBIO/VSBDatabase.cpp:93-117 | Columns packed on the way in come apart into the same fields on the way out, signed columns included. |
| RowCodec.RowRoundTrip | ICS_VSBIO/VSBIO/VSBDatabase.cpp:93-206 | Saving and reading a message keeps network id, id, status and acknowledge words, piece id, protocol, header size and data bytes, and its time up to 25 ns. |
| RowCodec.RowTripIdempotent | ICS_VSBIO/VSBIO/VSBDatabase.cpp:93-206 | A second trip returns the result of the first one, byte for byte. |
| RowCache.VSBInfo.FlushCache | ICS_VSBIO/VSBIO/VSBDatabase.cpp:123-143 | Exactly which rows a flush saves and which messages it leaves: a partial one saves one row it does not erase. |
| RowCache.VSBInfo.ProcessMessage | ICS_VSBIO/VSBIO/VSBDatabase.cpp:145-157 | At every moment, saving the cache would give the table of all arrivals inserted one by one. |
| RowCache.VSBInfo.UpdateTable | ICS_VSBIO/VSBIO/VSBDatabase.cpp:67-69 | After the last flush the table is that table. |
| RowCache.SavingTwice | ICS_VSBIO/VSBIO/VSBDatabase.cpp:131-139 | The row at the border, saved by two flushes, does not change the table. |
| RowCache.FlushKeepsOutcome | ICS_VSBIO/VSBIO/VSBDatabase.cpp:154-156 | A half flush leaves the final table as it was. |
| RowCache.CacheInsert | ICS_VSBIO/VSBIO/VSBDatabase.cpp:154-154 | Inserting in key order or in order of arrival leads to the same table, since equal primary keys have equal sort keys. |
| RowCache.FirstArrivalWins | ICS_VSBIO/VSBIO/VSBDatabase.cpp:17-22 | For a new primary key, the first arrival gives the row. |
| RowCache.StartingRowStays | ICS_VSBIO/VSBIO/VSBDatabase.cpp:17-22 | A row that was in the table stays as it was. |
| RowCache.AbsentKeyStaysAbsent | ICS_VSBIO/VSBIO/VSBDatabase.cpp:17-22 | No row appears for a key that never arrives. |
| TableContents.FirstMessageComesBack | ICS_VSBIO/VSBIO/VSBDatabase.cpp:17-206 | The first message with a new time, network and id is in the table after an export, and comes back from its row with identity, status words, header, data bytes, and its time up to 25 ns. |
| TableContents.RowsComeFromMessages | ICS_VSBIO/VSBIO/VSBDatabase.cpp:17-157 | Every new row stands for some message of the log. |
| CmpFrame.ParseOfBuild | ICS_VSBIO/UnwrapCMP.cpp:507-550 | Every segment put on the wire is parsed back field by field, with all big- and little-endian offsets. |
| CmpTraffic.AcceptedIff | ICS_VSBIO/UnwrapCMP.cpp:507-550 | A segment is accepted exactly when it is what the bytes of the logged message say, at the offsets and in the byte order of the CMP headers, with lengths that fit. |
| Reassembly.Reassembler.TryUnwrapCmpEthernet | ICS_VSBIO/UnwrapCMP.cpp:507-677 | The message delivered is the one the history of accepted segments calls for; rejected frames change nothing. |
| Reassembly.Reassembler.Accept | ICS_VSBIO/UnwrapCMP.cpp:549-676 | The contexts of all streams keep agreeing with the history, for each of the four segment kinds. |
| Reassembly.ContinuationStep | ICS_VSBIO/UnwrapCMP.cpp:600-618 | A continuation extends an open chain exactly when it carries the expected counter, and breaks it otherwise. |
| Reassembly.EndStep | ICS_VSBIO/UnwrapCMP.cpp:619-674 | An end closes the chain in any case and completes it exactly when it carries the expected counter. |
| ReassemblyTheorems.EndDeliversExactly | ICS_VSBIO/UnwrapCMP.cpp:586-674 | An end delivers a frame if and only if the frame is the data of all segments of its stream from some start to this end, with counters consecutive modulo 65536 and nothing else of that stream between. |
| ReassemblyTheorems.FramesDoNotOverlap | ICS_VSBIO/UnwrapCMP.cpp:619-674 | A start yields at most one frame: a later frame of the stream starts after the earlier one ended. |
| ReassemblyTheorems.CutFrameComesBack | ICS_VSBIO/UnwrapCMP.cpp:507-677 | A frame cut into parts is delivered byte for byte at its end, whatever came before and whatever other streams and unsegmented frames lie between. |
| ReassemblyTheorems.NativeMessageWellSized | ICS_VSBIO/UnwrapCMP.cpp:637-673 | A delivered message announces exactly the extra bytes that follow it. |
| NativeFrames.UnsegmentedOutput | ICS_VSBIO/UnwrapCMP.cpp:552-585 | For an unsegmented frame the output has the looked-up network, protocol, status, data, length, and by source the frame's time to 25 ns or all six time fields of the logged message; it is the logged message when the frame is not mapped. |
| NativeFrames.EndOutput | ICS_VSBIO/UnwrapCMP.cpp:619-674 | The same at the end of a segmented frame, with network and time of its start and the data of all its segments. |
| ReassemblyDevices.PerDeviceIffUnshared | ICS_VSBIO/UnwrapCMP.cpp:507-677 | For the devices and streams of a network, reassembly per stream id is reassembly per device and stream id in every log exactly when no device in the map shares a stream id with another one. |
| ReassemblyDevices.TwoDevicesMix | ICS_VSBIO/UnwrapCMP.cpp:586-673 | A start of one device and an end of another on one stream id give one frame, with the network of the first and bytes of both. |
| LossTracker.Detector.Track | ICS_VSBIO/UnwrapCMP.cpp:800-831 | The events recorded are those of the history of sightings, stream by stream. |
| LossTracker.DropsArePerStream | ICS_VSBIO/UnwrapCMP.cpp:484-494 | The events of a device and stream add up to the gaps of that stream alone, however streams are mixed. |
| LossTracker.LossAccountingExact | ICS_VSBIO/UnwrapCMP.cpp:800-831 | Reported drops plus received frames are last minus first plus one exactly when no true gap exceeds 65536, through any wrap-arounds. |
| CmpTraffic.SightedIff | ICS_VSBIO/UnwrapCMP.cpp:774-803 | A message is seen by the loss detector exactly when it is Ethernet with ethertype 0x99FE and CMP version 1, whatever its message type, and with the device, stream and counter in its bytes. |
| CmpTraffic.LossesOfLog | ICS_VSBIO/UnwrapCMP.cpp:794-831 | For a whole log: drops and received frames of a device and stream are its span of true sequence numbers exactly when no gap exceeds 65536, with other devices on the same stream in between. |
| Unwrapper.Unwrapping.ProcessMessage | ICS_VSBIO/UnwrapCMP.cpp:757-914 | One message in, one message out: itself, or its native form after the segments before it. |
| Unwrapper.UnwrapCMPToNative | ICS_VSBIO/UnwrapCMP.cpp:702-918 | The bytes of the output file and the drop events of a whole run, as functions of what the log file delivers up to the stop the callback asked for. |
| UnwrapperTheorems.EveryMessageWrittenOnce | ICS_VSBIO/UnwrapCMP.cpp:731-918 | The writer receives a permutation of one output per message, and the very sequence when not sorting. |
| UnwrapperTheorems.OutputOfMessage | ICS_VSBIO/UnwrapCMP.cpp:757-914 | Output number i is message i, or its native form after the segments of the messages before it. |
| CmpTraffic.OutputByPayload | ICS_VSBIO/UnwrapCMP.cpp:833-914 | CAN, CAN FD and LIN payloads go to their own conversion; messages that are not CMP or carry no data or another payload are output as they are. |
| UnwrapperTheorems.CutFrameIsOutput | ICS_VSBIO/UnwrapCMP.cpp:702-918 | Anywhere in a log, the message that ends a cut frame is replaced by that frame, whatever comes before and after. |
| UnwrapperTheorems.SegmentsPassThrough | ICS_VSBIO/UnwrapCMP.cpp:586-618 | The message of a start or continuation goes to the output as it is. |
| UnwrapperTheorems.EndIsReplacedIff | ICS_VSBIO/UnwrapCMP.cpp:619-674 | The message of an end is replaced by a frame exactly when some start of its stream and all segments from it on make up that frame; otherwise it goes to the output as it is. |
| UnwrapperTheorems.EventNumberIff | ICS_VSBIO/UnwrapCMP.cpp:757-831 | Each drop event carries the number of the message that caused it exactly when there is a callback. |
| UnwrapperTheorems.SentIsAccepted | ICS_VSBIO/UnwrapCMP.cpp:774-791 | A segment in its wire form, logged behind an Ethernet structure that announces its length, is accepted as it was. |
| UnwrapperTheorems.CutFrameSurvivesWire | ICS_VSBIO/UnwrapCMP.cpp:702-918 | The same for a frame cut into segments, put on the wire and logged between any messages that keep off its stream. |
| UnwrappedFiles.CutFrameInLogFile | ICS_VSBIO/UnwrapCMP.cpp:702-918 | The same for the messages read back from the file such a log is written to, as long as anything follows the end of the frame. |
| UnwrappedFiles.UnwrapLoggedCut | ICS_VSBIO/UnwrapCMP.cpp:702-918 | With writer, reader and unwrapper themselves: the native frame is among the messages of the output file. |
| UnwrappedFiles.OutputsWellSized | ICS_VSBIO/UnwrapCMP.cpp:757-914 | From a log of less than 4 GB every output announces what it carries, as far as the CAN, CAN FD and LIN conversions do. |
| UnwrappedFiles.UnwrappedFileIsWhole | ICS_VSBIO/UnwrapCMP.cpp:731-918 | The output file gives all its messages back exactly when the last one written has no extra data; without sorting that is the output of the last message of the log. |
| VsbFormat.WalkFindsPayload | ICS_VSBIO/VSBIO/VSBIO.cpp:297-335 | Walking the side section from its start finds payload k at entry k. |
| VsbReader.VSBIORead.Open | ICS_VSBIO/VSBIO/VSBIO.cpp:91-218 | Opening ends at the first message and at the first entry of the side section, where the stateless description of the header puts them; files of no known version are refused. |
| VsbReader.VSBIORead.SeekEntry | ICS_VSBIO/VSBIO/VSBIO.cpp:297-318 | Forward, repeated or backward, the cached cursor reaches the offset a walk from the start finds; the skip loop ends. |
| VsbReader.VSBIORead.GetEDP | ICS_VSBIO/VSBIO/VSBIO.cpp:297-335 | A success hands out the entry asked for, and after every outcome the cached offset is that of the cached index. |
| VsbReader.VSBIORead.Read102 | ICS_VSBIO/VSBIO/VSBIO.cpp:232-255 | One attempt agrees with the stateless description, and a buffer that is too small leaves the position unchanged. |
| VsbReader.VSBIORead.Read103 | ICS_VSBIO/VSBIO/VSBIO.cpp:257-267 | The same, with the hardware id changed over once and only on success. |
| VsbReader.VSBIORead.Read104 | ICS_VSBIO/VSBIO/VSBIO.cpp:269-295 | The same for extra data in line. |
| VsbReader.VSBIORead.ReadNextMessage | ICS_VSBIO/VSBIO/VSBIO.cpp:60-71 | The vector is resized at most once a message; the outcome is the one an ample buffer gives. |
| VsbReader.VSBIORead.ReadAll | ICS_VSBIO/VSBIO/VSBIO.cpp:60-151 | Reading until the first outcome that is no success delivers the messages of the stateless scan. |
| VsbWriter.VSBIOWrite.WriteMessage | ICS_VSBIO/VSBIO/VSBIO.cpp:481-491 | The file is always the header and the messages written so far. |
| VsbRoundTrip.WrittenFileReadsBack | ICS_VSBIO/VSBIO/VSBIO.cpp:269-295 | For every list of messages, exactly what reading the written file delivers. |
| VsbRoundTrip.RoundTripIff | ICS_VSBIO/VSBIO/VSBIO.cpp:269-295 | The whole list comes back exactly when it is not empty and its last message has no extra data. |
| MessageBytes.BackByteByByte | ICS_VSBIO/VSBIO/VSBIO.cpp:269-295 | Each message comes back with every byte it had, except that one without extra data loses what its flag or its length may still say. |
| MessageBytes.BackUnchangedIff | ICS_VSBIO/VSBIO/VSBIO.cpp:269-295 | The very same messages come back exactly when there are any, the last has no extra data, and in each of them flag and length are both zero or both not. |
| MessageBytes.FileBackUnchangedIff | ICS_VSBIO/VSBIO/VSBIO.cpp:73-151 | The same from the first byte of the file on. |
| OutputFiles.WrittenFileIsWhole | ICS_VSBIO/VSBIO/VSBIO.cpp:73-151 | The same from the first byte of the file on. |
| VsbRoundTrip.EmptyFileReadsBlank | ICS_VSBIO/VSBIO/VSBIO.cpp:73-151 | A file with a header alone delivers one blank message. |
| VsbRoundTrip.WriteAndReadBack | ICS_VSBIO/VSBIO/VSBIO.cpp:60-151 | The same with writer and reader themselves. |
| VsbLegacy.ReadLegacyFile | ICS_VSBIO/VSBIO/VSBIO.cpp:164-267 | A file of version 0x102, or of 0x103 with comment, times and closing time stamp, entries used in any order and as often as one likes, delivers each message with the payload its index stands for (and in 0x103 the changed hardware id), up to the first one rejected. |
| VsbLegacy.AllDelivered | ICS_VSBIO/VSBIO/VSBIO.cpp:319-325 | All messages come back exactly when each has, in the structures and the time stamp behind it, room for its payload and one structure more. |
| MessageBytes.ResolvedBytes | ICS_VSBIO/VSBIO/VSBIO.cpp:232-267 | The bytes of such a message: its payload, the payload's length, in 0x103 the changed hardware id, and all others as in its structure. |
| MessageBytes.ReadSetupFile | ICS_VSBIO/VSBIO/VSBIO.cpp:153-230 | A 0x101 file delivers every structure behind its setup block, with the changed hardware id. |
| VsbMerge.VSBIOReadMultiple.constructor | ICS_VSBIO/VSBIO/VSBIO.cpp:339-370 | Every file is opened and its first message held, unless it has none. |
| VsbMerge.VSBIOReadMultiple.TryReadNextMessage | ICS_VSBIO/VSBIO/VSBIO.cpp:406-445 | A success hands out the earliest message held and lets its reader read on; a buffer too small changes nothing and learns the size. |
| VsbMerge.VSBIOReadMultiple.ReadNextMessage | ICS_VSBIO/VSBIO/VSBIO.cpp:393-404 | The resizing loop ends, and hands out one message or reports that none is held. |
| VsbMerge.Concatenate | ICS_VSBIO/VSBIO/VSBIO.cpp:493-511 | For files read by the reader itself: the messages written are an interleaving of what the files deliver, or a prefix of each when the callback refused; in time order when every file is. |
| VsbMerge.InterleavingIsPermutation | ICS_VSBIO/VSBIO/VSBIO.cpp:493-511 | An interleaving loses and repeats nothing. |
| MergedFiles.MergedFileIsWhole | ICS_VSBIO/VSBIO/VSBIO.cpp:493-511 | A merged file gives all its messages back exactly when the last one written has no extra data. |
| MergedFiles.LatestIsLast | ICS_VSBIO/VSBIO/VSBIO.cpp:493-511 | For files in time order that is the last message of the file that ends latest. |
| VsbDelivery.ScanIsFit | ICS_VSBIO/VSBIO/VSBIO.cpp:232-295 | Versions 0x102 to 0x104: every message delivered carries exactly the extra data it announces. |
| VsbDelivery.ReadableIff | ICS_VSBIO/VSBIO/VSBIO.h:89-92 | From version 0x102 on every message delivered has the size the merger computes, so no further condition is put on the files. |
| VsbSplit.Split | ICS_VSBIO/VSBIO/VSBIO.cpp:533-564 | The files hold the messages in order, n each and at least one in the last, and byte for byte what the writer makes of them. |
| VsbSplitTheorems.CountOfParts | ICS_VSBIO/VSBIO/VSBIO.cpp:548-559 | There are N/n files, rounded up. |
| VsbSplitTheorems.EvenPartsUnique | ICS_VSBIO/VSBIO/VSBIO.cpp:548-559 | Messages and count determine the files. |
| VsbSplit.SplitBySize | ICS_VSBIO/VSBIO/VSBIO.cpp:574-608 | The files hold the messages in order, and each ends exactly where the splitter's count would pass the limit. |
| VsbSplitTheorems.FullPartsUnique | ICS_VSBIO/VSBIO/VSBIO.cpp:595-605 | Messages and limit determine the files. |
| VsbSplitTheorems.PartSizeBound | ICS_VSBIO/VSBIO/VSBIO.cpp:595-605 | No file is larger than max(10, limit) and its first message. |
| VsbSplitTheorems.BoundIsReached | ICS_VSBIO/VSBIO/VSBIO.cpp:595-605 | For every limit of at least 74 and every first message, some log of well-formed messages reaches that bound. |
| VsbSplitTheorems.SmallLimit | ICS_VSBIO/VSBIO/VSBIO.cpp:595-605 | Below 74 every file holds one message and has exactly the size of a header and that message. |
| VsbSplitTheorems.FitIffRobust | ICS_VSBIO/VSBIO/VSBIO.cpp:595-605 | All files keep the limit exactly when, in the cut of the log that counts every message, no message alone is too large and no file has room for the next message in place of its first one. |
| VsbSplitTheorems.CutIsIntended | ICS_VSBIO/VSBIO/VSBIO.cpp:580-605 | IntendedCut computes such a cut of any log. |
| VsbSplitTheorems.IntendedIsCut | ICS_VSBIO/VSBIO/VSBIO.cpp:580-605 | There is no other. |
| VsbSplitTheorems.FitIffNoSplit | ICS_VSBIO/VSBIO/VSBIO.cpp:595-605 | With no message larger than the first, all files keep the limit exactly when the whole log fits into one. |
| VsbSplitReadBack.SplitReadsBackIff | ICS_VSBIO/VSBIO/VSBIO.cpp:548-562 | The files of a split by n together give the messages back exactly when every n-th message and the last one have no extra data. |
| VsbSplitReadBack.SplitBySizeReadsBackIff | ICS_VSBIO/VSBIO/VSBIO.cpp:587-606 | Those of a split by size exactly when no message has extra data at which the splitter's running count is followed by a message that passes the limit, nor the last one. |
| VsbSplitReadBack.CountAfterParts | ICS_VSBIO/VSBIO/VSBIO.cpp:595-605 | That running count, computed from the log alone, is the count of the file being written. |
| VsbSplitReadBack.SplitFileReadsBackIff | ICS_VSBIO/VSBIO/VSBIO.cpp:533-564 | The first of these for the messages of any readable log file. |
| VsbSplitReadBack.SplitBySizeFileReadsBackIff | ICS_VSBIO/VSBIO/VSBIO.cpp:574-608 | The second one. |
| Pcap.PcapFile.Open | ICS_VSBIO/VSBIO/PcapFile.cpp:60-89 | A new file begins with the headers of its type, an appended one with what it held. |
| Pcap.PcapFile.WriteMessage | ICS_VSBIO/VSBIO/PcapFile.cpp:91-132 | An Ethernet message with data adds one record and counts it; any other message adds nothing. |
| Pcap.PcapNgReadsBack | ICS_VSBIO/VSBIO/PcapFile.cpp:60-132 | Walking a pcapng file by block lengths (sections 3.1 and 4.3 of draft-ietf-opsawg-pcapng) gives the Ethernet payloads in order, with their times in microseconds rejoined from two words. |
| Pcap.LengthAgreesIff | ICS_VSBIO/VSBIO/PcapFile.cpp:117-127 | A packet block is 4-byte aligned and states one length twice, which is the number of bytes written exactly when it does not wrap in 32 bits. |
| Pcap.AppendToNothing | ICS_VSBIO/VSBIO/PcapFile.cpp:62-63 | Without the headers a pcapng file is readable exactly when it has no packets. |
| Pcap.SubSecondExact | ICS_VSBIO/VSBIO/PcapFile.cpp:106-107 | For every 64-bit time, the part of a second computed in wrapping 32-bit arithmetic is the time modulo 10^9. |
| Pcap.PcapTimeIff | ICS_VSBIO/VSBIO/PcapFile.cpp:105-107 | The two fields make up the time exactly while seconds fit 32 bits. |
| Pcap.PcapReadsBack | ICS_VSBIO/VSBIO/PcapFile.cpp:91-111 | Walking a pcap file by record sizes gives the Ethernet payloads in order with their exact times. |
| PcapLogs.FileOfLogReadsBack | ICS_VSBIO/VSBIO/PcapFile.cpp:91-132 | For a log given by structures and extra bytes, a pcap or pcapng file gives back, in order, exactly the extra bytes of the Ethernet messages that have any, with their times. |
| PcapLogs.WriteLog | ICS_VSBIO/VSBIO/PcapFile.cpp:60-132 | The same for a file written message by message, and the number of records is that of those messages. |
| Export.CreatePcap | ICS_VSBIO/VSBIO/VSBDatabase.cpp:208-235 | The file written is headers and records of the messages the log delivers, up to the stop the callback asked for. |
| Export.CreateDb | ICS_VSBIO/VSBIO/VSBDatabase.cpp:237-265 | The table after an export is the one that inserting the delivered messages one by one gives. |

## Left out

- OFile, directory listing, the DLL exports, SWIG wrappers and the progress display: input and output only. A file is a sequence of bytes with a cursor, and a failing open is a parameter.
- The percentage handed to the callback: the callback is a function of the message number alone.
- SQLite beyond INSERT OR IGNORE by primary key, and the network statistics kept beside the table.
- The CMP network map: any table from device and interface to network id will do.
- CAN, CAN FD and LIN payloads: their conversion is an arbitrary function of message, frame and time source, since it copies fields and keeps no state.
- Time stamps as double: the merge uses an arbitrary reading of a stamp as a real number, and a stamp stored as an IEEE double is decoded by a function given from outside.
- VsbMerge.Concatenate: the error paths of the merge and its shared error flag; every file merged can be opened, and its messages carry the extra data they announce.
- The text report about dropped messages and its percentage.
- Wrap-around of 64-bit file offsets and counters: sizes and counters are unbounded, 32-bit and 16-bit ones wrap as in the code.
- OutputBuffer.SortingWriter.FlushBuffer: capacity and flush size are any two sizes rather than 131072 and 65536; std::stable_sort is taken as the sort of KeyedSort, which its properties determine.
- RowCache.VSBInfo.ProcessMessage: std::multimap is taken as a sequence in key order with equal keys in order of arrival; a message without extra data must not claim more data bytes than the structure has.
- RowCodec.RowRoundTrip: payloads of 2^31 bytes and more, which the INTEGER size column cannot describe; RowTripIdempotent likewise.
- VsbMerge.VSBIOReadMultiple.TryReadNextMessage: the priority queue is a map from readers to the messages they hold, and any earliest one may be at the front; nothing is said about ties, where the comparison of the source (`>= 0`) holds both ways and is no strict weak order.
- VsbReader.VSBIORead.ReadAll: nothing is said about a file in which a message refers to a side-section entry that is not there; the split and export results leave such files out in the same way.
- VsbReader.VSBIORead.SeekEntry: the last 32-bit index is left out, since the cursor cannot step past it.
- TimeDecoder.TimeRoundTrip: SetMessageTime is modelled on values, as the new structure it makes of a message.
- Unwrapper.UnwrapCMPToNative: the messages of the log carry the extra data they announce, as from version 0x102 on they always do; the code reads on past the end of one that does not.
- Pcap.PcapNgReadsBack: payloads near 4 GB, whose block length wraps, are left to LengthAgreesIff.
- Export.CreateDb: the cache limit is any positive number rather than 100000; it is for logs whose messages can be stored, as the code reads past the structure of others.
- Pcap.PcapReadsBack: times from 2106 on, which lose a multiple of 2^32 seconds, are left to PcapTimeIff.
