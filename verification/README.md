# Verification of lpx

lpx records camera frames while a train passes, keeps them in a directory with a text index of their
times, and serves them over HTTP as one byte archive. This project is a Dafny 4.11 model of the parts
of lpx where the difficulty lies, with proofs about them. `dafny verify dfyconfig.toml` checks all of
it; long proofs are cut into small lemmas, so no solver limit has to be raised.

What is modelled, file by file:

| file | part of lpx |
|---|---|
| `Lpxstd.dfy`, `Bytes.dfy`, `Text.dfy` | 64-bit wrap-around, little-endian numbers, `printf`/`strtoll`, path names |
| `LinkedList.dfy` | `list.c` as nodes on the heap, with its iterator |
| `Bmp.dfy` | RAW12 unpacking with the lazily filled table, and the BMP file |
| `Archive.dfy` | the archive format with a reader for it |
| `StreamMachine.dfy` | the resumable writer as a state machine, with buffer overrun as an outcome |
| `StreamRuns.dfy`, `HeaderFit.dfy` | whole downloads; which buffer sizes are safe |
| `VideoStream.dfy` | the writer as an object over files and the caller's buffer, proved to be that machine |
| `FrameIndex.dfy`, `FrameLookup.dfy` | the index file; the lookups by time |
| `FrameRequests.dfy`, `Server.dfy` | which frames a request selects; the request handler |
| `Recorder.dfy`, `Camera.dfy` | recording as a step system; the capture session proved to take its steps |
| `Storage.dfy`, `Downloads.dfy` | directories, index and frame files; what opening a recording serves |
| `EndToEnd.dfy` | from the camera callback to the bytes a client parses |
| `Bits.dfy`, `SensorRegs.dfy` | register words as bit sequences; editing of mode tables |
| `RegisterReplay.dfy`, `SensorFields.dfy` | replaying a table on the bus; fields over several registers |
| `SensorFlips.dfy`, `SensorUpdate.dfy`, `Sensors.dfy` | mirroring; what the whole update leaves in the device; the sensors of the repository |

Conventions. Text is a sequence of bytes. Times are microseconds. Each frame callback is one atomic
step: the mutex of the session covers only the `stopping` flag. A stream sees one unchanging file
system while it is read. An outcome `Overrun` of the writer is a copy past the end of the caller's
buffer; methods that copy have its absence as their precondition, and `HeaderFit` says exactly when
that holds.

What the proofs show the code does differently from its documentation or from what one would expect:

* `stream_find_frame_abs` is documented to return a frame's position and returns the time. That is such a
  position exactly under a condition that no recording with a real clock meets (`WhenAbsIsPosition`,
  `FindFrameAbsIsNoPosition`). Its only caller compares with -1, which is right for every time below the
  largest 64-bit one (`FindFrameAbsMeaning`).
* `read_part` does not ask whether a header fits its buffer. No buffer boundary may fall inside a header
  (`ScheduleFits`). With full 10240-byte blocks, a whole recording meets this exactly up to 498 frames
  (`ServerBlocksFit`).
* Requested frame times are compared as unsigned numbers and negative ones are accepted. Sorting and
  stopping at the first miss loses answers exactly when one requested time misses and a negative one
  does not (`WhenBreakLosesNothing`, `NegativeRequestLost`).
* A failed store uses up a file number but makes no index record. From the next stored frame on positions
  and file numbers are out of step (`InStepMeaning`): in a fresh directory the first position affected has
  no file, later ones have none or that of an earlier record (`ServedFileIsOwn`), and a whole download
  comes to a failure there (`BreaksWhenOutOfStep`, `OutOfStepFails`, `FailedFirstStore`).
* Frame file names are cut to fifteen characters (`FrameNameFaithful`, `FrameNameCollision`). The numbers
  that this program puts into names stay below 2^32, so none is cut.
* The loops that split a value over registers handle only whole bytes and single registers
  (`WhichWidthsWork`). The imx219 has only such fields, and the ar0144 is never written. An edit of a
  register that the table writes again later has no effect (`EditReachesDevice`).
* The BMP header's data offset is four bytes early: the palette is declared with 255 colours and a reader
  sees the picture moved on by four pixels (`DeclaredPixelsAreShifted`).

## Model

| member | source | states |
|---|---|---|
| LinkedList.List.constructor | lpx-shared/src/list.c:25-29 | A new list is empty and well formed. |
| LinkedList.List.Append | lpx-shared/src/list.c:31-43 | The chain stays acyclic with consistent first, last and 32-bit size, and holds the old values and the new one. |
| LinkedList.List.Last | lpx-shared/src/list.c:45-51 | The last value, or none for the empty list. |
| LinkedList.List.Size | lpx-shared/src/list.c:53-55 | The number of values, in 32 bits. |
| LinkedList.List.ToArray | lpx-shared/src/list.c:89-98 | The values in order of appending fill the front of the array; the rest is untouched. |
| LinkedList.ListIter.constructor | lpx-shared/src/list.c:57-63 | A new iterator stands before the first value. |
| LinkedList.ListIter.HasNext | lpx-shared/src/list.c:65-67 | True exactly when values are left. |
| LinkedList.ListIter.Advance | lpx-shared/src/list.c:69-75 | Moves one position, stays past the end once there, and says whether it stands on a value. |
| LinkedList.ListIter.Peek | lpx-shared/src/list.c:77-82 | After k advances, the value number k - 1, or none past the end. |
| LinkedList.AppendUnderIterator | lpx-shared/src/list.c:31-43 | An iterator goes on to see a value appended later exactly when the list was not empty and its end had not been passed. |
| Bmp.UnpackInvertsPack | lpx-shared/src/bmp.c:104-123 | Unpacking a packed run of 12-bit pixels gives each pixel modulo 256, in order. |
| Bmp.UnpackReadsPrefix | lpx-shared/src/bmp.c:111-120 | The result depends on the first 3n/2 input bytes only. |
| Bmp.PixelMap.MapPixel | lpx-shared/src/bmp.c:90-101 | Whatever calls came before, the table is filled afterwards and the answer is the truncated pixel. |
| Bmp.Raw12ToBitmap | lpx-shared/src/bmp.c:104-123 | The loop over two indices produces the unpacked image and stays inside both buffers. |
| Bmp.FillBmpHeader | lpx-shared/src/bmp.c:12-72 | After all overlapping stores into uninitialised memory the first 1078 bytes are the header fields and the grey ramp. |
| Bmp.GenerateBmp | lpx-shared/src/bmp.c:74-88 | The file is header, palette and the bitmap, byte for byte. |
| Bmp.Raw12ToBmp | lpx-shared/src/bmp.c:125-134 | The raw frame becomes the BMP file of its unpacked pixels. |
| Bmp.RawBecomesPicture | lpx-shared/src/bmp.c:125-134 | The converted file of a packed picture, whatever follows it, has that picture's width and height in its header and its pixels, modulo 256, as data. |
| Bmp.BmpLayout | lpx-shared/src/bmp.c:12-88 | A reader decodes every field of both headers: the size, offset, width, height, depth, image size and colour count of the image, one plane, and zero elsewhere; and size = offset + image size = real length - 4. |
| Bmp.PaletteIsGreyRamp | lpx-shared/src/bmp.c:66-71 | Palette entry c is the grey of level c. |
| Bmp.DeclaredPixelsAreShifted | lpx-shared/src/bmp.c:19-25 | A reader that trusts the declared offset sees the last palette entry and then the picture without its last four pixels. |
| Archive.ArchiveRoundTrip | lpx-shared/include/stream.h:19-26 | A reader of the documented grammar recovers exactly the files of an archive and consumes every byte. |
| Archive.ArchiveCanonical | lpx-shared/include/stream.h:19-26 | Whatever the reader accepts is the encoding of what it returns. |
| Archive.ArchiveBytes | lpx-shared/include/stream.h:19-26 | The bytes of an archive with one two-byte file named 7. |
| Bytes.LittleEndianByte | lpx-shared/src/stream.c:132-185 | Byte i of a number as it is copied is the one of weight 256^i. |
| StreamMachine.ReadPart | lpx-shared/src/stream.c:129-198 | A part stays within its size, and one that writes nothing closes the open file. |
| StreamMachine.ZeroStep | lpx-shared/src/stream.c:186-198 | A file that just filled the buffer stays open; the next part writes nothing and closes it. |
| StreamMachine.ReadPartMoves | lpx-shared/src/stream.c:129-198 | What a part writes followed by what then remains is what remained before; end and failure are reported only with nothing left before them. |
| StreamMachine.CallMeaning | lpx-shared/src/stream.c:200-221 | A call writes what remains cut at its size; it ends for another reason than a full buffer exactly when the bytes ran out, as end or as failure according to whether some file cannot be opened. |
| StreamRuns.ChunkIndependence | lpx-shared/src/stream.c:129-221 | For every schedule of reads the received bytes plus the remaining ones are the archive; each call returns its full size until the archive runs out, then at most one short count, then only EOF. |
| StreamRuns.DownloadRoundTrip | lpx-shared/src/stream.c:200-221 | A client that reads in any pieces until EOF parses exactly the served files. |
| StreamRuns.BrokenDownload | lpx-shared/src/stream.c:207-217 | When some file cannot be opened, the end is never reported before the failure, and the failure is reported once more was asked for than comes before that file. |
| StreamRuns.CallTracks | lpx-shared/src/stream.c:129-221 | One call overruns its buffer exactly when its end falls inside a header. |
| HeaderFit.ScheduleFits | lpx-shared/src/stream.c:132-185 | A download stays within its buffers exactly when no boundary of the schedule falls inside a header. |
| HeaderFit.ConstantScheduleFits | lpx-shared/src/stream.c:132-185 | For buffers of one size this is an arithmetic condition on where the headers start. |
| HeaderFit.ServerBlocksFit | lpx-server/src/main.c:179-180 | For the server's block size and whole recordings it holds exactly up to 498 frames. |
| VideoStream.VideoStream.constructor | lpx-shared/src/stream.c:58-67 | A new stream has sent nothing. |
| VideoStream.VideoStream.CloseCurrentFile | lpx-shared/src/stream.c:94-105 | Only the open file is given up. |
| VideoStream.VideoStream.OpenNextFile | lpx-shared/src/stream.c:107-123 | The end is reported when all paths were used; otherwise the next path is used up and opened if it exists. |
| VideoStream.VideoStream.ReadPart | lpx-shared/src/stream.c:129-198 | State, result and buffer contents are those of the state machine's part. |
| VideoStream.VideoStream.StreamRead | lpx-shared/src/stream.c:200-221 | State, return value and the whole buffer are those of the state machine's call; the loop terminates although a round may write nothing. |
| FrameIndex.PrintLineFits | lpx-shared/src/stream_storage.c:159-160 | Every printed record fits the line buffer with its terminator. |
| FrameIndex.IndexRoundTrip | lpx-shared/src/stream_storage.c:118-181 | Reading the written index gives the same records, for all 64-bit times. |
| FrameIndex.LineBytes | lpx-shared/src/stream_storage.c:13 | The record (10, 20) is the six bytes of "10,20" and a newline. |
| FrameIndex.ScanLineReads | lpx-shared/src/stream_storage.c:159-164 | Two numbers with a comma between them are read as the nearest 64-bit numbers, whatever stands behind them. |
| FrameIndex.OtherSeparator | lpx-shared/src/stream_storage.c:159-164 | A line with anything but a comma behind the first number is refused. |
| FrameIndex.LineEnds | lpx-shared/src/stream_storage.c:157-158 | A line read ends with the first newline, at the limit of the buffer, or with the text. |
| Text.ScanIntReads | lpx-shared/src/stream_storage.c:13 | Scanning a printed number of any size gives the nearest 64-bit number and stops behind it. |
| Text.ScanSkipsSpace | lpx-shared/src/stream_storage.c:13 | White space in front of a number is skipped. |
| Text.ScanSkipsPlus | lpx-shared/src/stream_storage.c:13 | A plus sign in front of a number is skipped. |
| Text.FrameNameFaithful | lpx-shared/src/stream_storage.c:35-40 | The file name determines the frame number exactly below 10^15. |
| Text.FrameNameInjective | lpx-shared/src/stream_storage.c:35-40 | Different numbers below 10^15 have different names. |
| Text.FrameNameCollision | lpx-shared/src/stream_storage.c:36-37 | Two larger numbers share a name. |
| Text.BasenameOfChild | lpx-shared/src/stream.c:150-151 | The name of a file put into a directory is recovered from its path. |
| FrameLookup.StreamFindFrame | lpx-shared/src/stream.c:69-83 | The loop in 64-bit arithmetic computes the first increase of the distance, with the final test. |
| FrameLookup.ScanIsGloballyNearest | lpx-shared/src/stream.c:71-77 | The position where the distance first increases is the last of the globally nearest ones. |
| FrameLookup.FindFrameMeaning | lpx-shared/src/stream.c:69-83 | For every offset the server accepts, negative ones and wrap-around included: which lookups fail, exactly; all others give the last nearest frame. |
| FrameLookup.FindFrameAfterStart | lpx-shared/src/stream.c:69-83 | For offsets from the start on it fails exactly from the last end time on; all differences fit 64 bits. |
| FrameLookup.FindFrameMonotone | lpx-shared/src/stream.c:69-83 | Later offsets give later frames, and after a miss there are only misses. |
| FrameLookup.ClockStepMisleads | lpx-shared/src/stream.c:71-77 | Where the starts rise and then go back: exactly when some moment is given a frame although the one after the step is strictly nearer, by the starts around the step; always so for a step of three microseconds or more to a moment at which no frame started. |
| FrameLookup.UnorderedIndexMisleads | lpx-shared/src/stream.c:71-77 | An instance: three records that touch and a clock that was set back; a frame twenty microseconds nearer is missed. |
| FrameLookup.StreamFindFrameAbs | lpx-shared/src/stream.c:85-92 | Some record contains the time: then the time as a signed number, otherwise -1. |
| FrameLookup.FindFrameAbsMeaning | lpx-shared/src/stream.c:85-92 | The result differs from -1 exactly when a record contains the time, except at the largest time. |
| FrameLookup.WhenAbsIsPosition | lpx-shared/src/stream.c:85-92 | The result is the position of a frame that contains the time, as documented, exactly when the time is below the number of frames and that very frame contains it. |
| FrameLookup.FindFrameAbsIsNoPosition | lpx-shared/src/stream.c:88 | In an ordered index whose first start is at least the number of its records it never is. |
| FrameLookup.PositionMissed | lpx-shared/src/stream.c:88 | An instance: a frame that contains the time, and a result that is not its position. |
| FrameLookup.ContiguousCovers | lpx-shared/src/stream.c:85-92 | In an ordered index without gaps some record contains a moment exactly when it is not before the first start or after the last end. |
| FrameRequests.SortTimesSorts | lpx-server/src/main.c:89 | Sorting orders the times and keeps them all. |
| FrameRequests.BreakCosts | lpx-server/src/main.c:99-108 | Stopping at the first miss loses results exactly when some hit follows a miss. |
| FrameRequests.WhenBreakLosesNothing | lpx-server/src/main.c:82-108 | For all lists of accepted offsets: nothing is lost exactly unless one misses and a negative one does not. |
| FrameRequests.EarlyBreakLosesNothing | lpx-server/src/main.c:89-108 | For offsets from the start on: exactly the lookups of all answerable times, in frame order, whatever the order of the request. |
| FrameRequests.NegativeRequestLost | lpx-server/src/main.c:82-108 | A request with a late and a negative time loses the answer to the negative one. |
| Server.ParseTimeReads | lpx-server/src/main.c:80-87 | A decimal parameter is accepted with its value exactly strictly between the 64-bit extremes, and refused with anything behind it. |
| Server.ParseTimeOther | lpx-server/src/main.c:80-87 | An empty parameter is zero; one that begins like no number is refused. |
| Server.ReadTimes | lpx-server/src/main.c:79-88 | Succeeds exactly when every parameter is valid, with their values in order. |
| Server.LookUp | lpx-server/src/main.c:98-108 | The list holds the lookups up to the first miss; without requested times an empty index is not read. |
| Server.LpxServer.OpenStreamFrames | lpx-server/src/main.c:72-122 | Bad parameters, whatever the index, an unreadable index and success are told apart, and on success the stream serves the selected frames. |
| Server.RequestSelects | lpx-server/src/main.c:72-108 | The frames a request selects, for valid times from the start on, ascend and are the results of exactly those lookups that find a frame. |
| Server.RequestOrderIrrelevant | lpx-server/src/main.c:79-108 | The order of the parameters does not matter, whatever they are. |
| Server.RequestLoses | lpx-server/src/main.c:72-108 | For any accepted times the request loses a result exactly when one misses and a negative one does not. |
| Server.PrintedTimesRead | lpx-server/src/main.c:79-88 | Times written in decimal are read in order. |
| Recorder.RunInvariant | lpx-control/src/camera.c:46-81 | On every run: records touch each other even across failed stores, the first starts with the recording, and the frame counter is the number of frames that arrived, in 32 bits. |
| Recorder.RecordTimes | lpx-control/src/camera.c:72-80 | Each record ends at the time its frame was stored and starts at the time the one before was, the first at the start of the recording. |
| Recorder.NumbersAscend | lpx-control/src/camera.c:60-61 | File numbers of records grow strictly and are at least the record's position. |
| Recorder.StoredNumbers | lpx-control/src/camera.c:60-70 | The file numbers are the positions of the frames that could be stored before the stop. |
| Recorder.NumberIsRecord | lpx-control/src/camera.c:60-70 | Record k has file k exactly when every frame before its own could be stored. |
| Recorder.InStepMeaning | lpx-control/src/camera.c:60-70 | All records have their positions as file numbers exactly when no frame could be stored after one that could not. |
| Recorder.FrameOnDisk | lpx-control/src/camera.c:60-78 | Until the counter comes round, each record's file holds the frame that made the record. |
| Recorder.FilesAreNumbers | lpx-control/src/camera.c:60-70 | In a directory that held no frames, exactly the numbers of stored frames have files. |
| Recorder.RecordedIsOrdered | lpx-control/src/camera.c:72-80 | With a clock that does not go back the index has the order the lookups rely on. |
| Camera.CaptureSession.HandleFrame | lpx-control/src/camera.c:46-81 | The callback takes the step of the step system on session and files, whose records carry the times of `RecordTimes`, and reports a failed store. |
| Camera.CaptureSession.WriteFrameIndex | lpx-control/src/camera.c:151-174 | The records are written as the index unless there are none. |
| Camera.CaptureSession.StopStream | lpx-control/src/camera.c:176-197 | Stopping takes the stop step; an index that could not be stored is reported with the code of the storage and then with that of the camera; stopping again changes and reports nothing. |
| Camera.StartStream | lpx-control/src/camera.c:108-149 | A train whose directory exists is refused; otherwise its directory is added, holds no frames, and the session begins empty at the current time. |
| Storage.FramePathsDiffer | lpx-shared/src/stream_storage.c:35-40 | Frame files of a recording differ from each other and from the index. |
| Storage.PathBytes | lpx-shared/src/stream_storage.c:35-40 | The paths of a frame and of the index, in bytes. |
| Storage.Storage.Prepare | lpx-shared/src/stream_storage.c:42-61 | The directory is there afterwards, next to the others; an existing one is refused; as every file is in a directory, a new one holds no frames. |
| Storage.Storage.StoreFrame | lpx-shared/src/stream_storage.c:63-97 | Exactly the frame's file changes, and only on success. |
| Storage.Storage.StoreStreamIdx | lpx-shared/src/stream_storage.c:99-133 | Exactly the index file changes, to the printed records. |
| Storage.Storage.ReadStreamIdx | lpx-shared/src/stream_storage.c:135-193 | A missing directory or index, and an index that does not scan, are told apart; otherwise all records in order. |
| Storage.Storage.FindStream | lpx-shared/src/stream_storage.c:298-328 | The last listed stream whose directory and index are there, whose index scans, and of which some record has start <= time <= end; none exactly when there is none. |
| Storage.Storage.OpenStream | lpx-shared/src/stream_storage.c:330-354 | Fails exactly when directory or index is missing or does not scan; otherwise the stream serves the frames from the offset to the length of the index. |
| Storage.Storage.OpenStreamFrames | lpx-shared/src/stream_storage.c:356-384 | The stream serves the listed frames in order. |
| Downloads.OffsetArchiveIsSuffix | lpx-shared/src/stream_storage.c:340-346 | The archive at offset k counts the frames left and continues with the full archive from where frame k starts. |
| Downloads.OffsetIsFrames | lpx-shared/src/stream_storage.c:340-372 | Listing the frames from k on opens the same stream as offset k. |
| Downloads.ServerDownload | lpx-server/src/main.c:141-180 | A stored recording of up to 498 frames, read in the server's blocks until EOF, parses to its frames in order, and enough reads reach EOF. |
| Downloads.ThirtyFrames | lpx-shared/test/tests.c:95 | Thirty frames make an archive of the length the repository's test expects. |
| EndToEnd.IndexOfRecording | lpx-control/src/camera.c:151-174 | The index on disk reads back as the records of the run, ordered and without gaps. |
| EndToEnd.ServedFileIsOwn | lpx-shared/src/stream_storage.c:342-344 | Position i of a recording is served the image of the record with file number i, an earlier one or its own, and nothing if there is none; it is its own exactly when every frame before record i's could be stored. |
| EndToEnd.BreaksWhenOutOfStep | lpx-shared/src/stream_storage.c:340-346 | Some position of a whole recording cannot be served exactly when some frame could be stored after one that could not. |
| EndToEnd.OutOfStepFails | lpx-shared/src/stream.c:207-217 | Then a whole download, in any pieces, comes to a report of a failure and to no end before it. |
| EndToEnd.FailedFirstStore | lpx-control/src/camera.c:60-70 | An instance: the first store fails and the second does not. |
| EndToEnd.RecordingDownloads | lpx-control/src/camera.c:46-81 | Recorded, indexed, read back and sent in the server's blocks, a recording of up to 498 frames, none stored after one that could not be, parses at the client to the camera's images in order. |
| EndToEnd.AllFramesDownload | lpx-control/src/camera.c:46-81 | Without failed stores these are all frames that arrived. |
| EndToEnd.ClientSeesPicture | lpx-shared/src/stream.c:165-185 | Each entry the client parses is, under its number, a 1280 by 800 file of the picture that the camera had packed. |
| EndToEnd.RecordedMomentIsServed | lpx-shared/src/stream.c:69-92 | After record, store and re-read, every time from the start of a recording without failed stores to its last frame is recognised, and the lookup gives a stored frame that began nearest to it. |
| EndToEnd.RecordedMomentIsFound | lpx-shared/src/stream_storage.c:298-328 | If no other listed stream contains the time, the search by time gives the recorded stream. |
| EndToEnd.MomentOpensFrame | lpx-server/src/main.c:72-109 | A request for that time, as the client writes it, opens a stream that serves that frame alone; received in the server's blocks until EOF it parses to the image that came from the camera. |
| SensorRegs.EditBitsEqual | lpx-control/src/raspiraw.c:956-988 | Writing a bit range changes the first entry of the register, in exactly that range; an absent register changes nothing. |
| SensorRegs.EditBitsFrame | lpx-control/src/raspiraw.c:956-988 | Bit by bit: the range equals the value's bits, all other bits, entries and register numbers are kept. |
| SensorRegs.BitOpMeaning | lpx-control/src/raspiraw.c:956-981 | Each of the four operations changes its bit alone: to the value, to one, to zero, or over. |
| SensorRegs.Mode.ModRegBit | lpx-control/src/raspiraw.c:956-981 | The table in place becomes the edited table, for each of the four operations. |
| SensorRegs.Mode.ModReg | lpx-control/src/raspiraw.c:983-988 | The loop edits the bits of the range one after the other. |
| SensorRegs.Mode.SplitField | lpx-control/src/raspiraw.c:1008-1016 | The split loop writes the value's bytes, most significant first, into consecutive registers. |
| SensorRegs.Mode.UpdateRegs | lpx-control/src/raspiraw.c:990-1051 | Table and colour order after the flips, the exposure, the frame length and the gain, with each guard. |
| SensorFlips.FlipMirrors | lpx-control/src/raspiraw.c:73-80 | Order ^ 1 is the colour pattern mirrored left to right, order ^ 2 mirrored top to bottom, for even sizes. |
| SensorFlips.UpdateMirrors | lpx-control/src/raspiraw.c:990-1001 | The order after an update is the colour pattern mirrored by each flip asked for that the sensor has, if its flips change the order. |
| SensorFlips.OddWidthDoesNotMirror | lpx-control/src/raspiraw.c:73-80 | For an odd width it is not. |
| SensorFlips.FlipsTwice | lpx-control/src/raspiraw.c:990-1001 | Updating twice with the same flips restores table and order. |
| RegisterReplay.Bus.SendRegs | lpx-control/src/raspiraw.c:246-283 | The device that received the messages of the loop is the replay of the table. |
| RegisterReplay.Sent | lpx-control/src/raspiraw.c:254-279 | A message of one or two bytes each, most significant first, sets the register of that number to that data. |
| RegisterReplay.KeyMeaning | lpx-control/src/raspiraw.c:246-283 | An entry goes to the slave chosen by the last address entry before it, to the register of its number, modulo 256 with one-byte addressing. |
| SensorFields.WordOfRegister | lpx-control/src/raspiraw.c:246-283 | In a table for one slave the entry of a register that is alone decides the register of that number, modulo 256 with one-byte addressing. |
| RegisterReplay.ReplayDiffersOnlyIn | lpx-control/src/raspiraw.c:246-283 | Tables that differ only in the data of some registers leave devices that differ only there. |
| RegisterReplay.ReplayAlone | lpx-control/src/raspiraw.c:246-283 | An entry whose register no other entry reaches decides the device's register. |
| RegisterReplay.EditThroughReplay | lpx-control/src/raspiraw.c:246-283 | New data in one entry reaches exactly its register of the device, and nothing at all exactly when a later entry writes there. |
| RegisterReplay.EditReachesDevice | lpx-control/src/raspiraw.c:956-988 | An edit goes to the first entry of a register, so it is lost exactly when that register is written again; otherwise the device differs in that register alone and holds the edited bits. |
| RegisterReplay.FlipReachesDevice | lpx-control/src/raspiraw.c:990-999 | The same for the flip of a bit. |
| SensorFields.FieldReads | lpx-control/src/raspiraw.c:1008-1016 | Registers that hold the parts of a value hold, read big-endian, the value. |
| SensorUpdate.UpdateReachesDevice | lpx-control/src/raspiraw.c:990-1051 | After the replay the device's fields are exactly the requested exposure, frame length and gain, each when its guards let it through. |
| SensorUpdate.UpdateTouchesOnlyTargets | lpx-control/src/raspiraw.c:990-1051 | All device registers but those of flips asked for and of fields whose value is let through are as without the update. |
| SensorUpdate.RejectedValuesLeaveFields | lpx-control/src/raspiraw.c:1003-1007 | A field whose guards reject the value reads in the device, in the same registers of the same slave, as without the update. |
| SensorUpdate.FlipsReachDevice | lpx-control/src/raspiraw.c:990-1001 | After a whole update a flip register shows each flip that was asked for, and no other change, in the same register of the same slave. |
| Sensors.Imx219Layout | lpx-control/src/imx219_modes.h:611-623 | The imx219 description, with any table that has each register an update writes once, meets the conditions of the theorems on updates. |
| Sensors.Mode6Table | lpx-control/src/imx219_modes.h:442-506 | The table of the one imx219 mode in use is such a table, for one slave. |
| Sensors.Imx219Update | lpx-control/src/imx219_modes.h:611-623 | Exposure, frame length and gain registers of the device hold the request, or what the same registers of the same slave would have held when it is out of range. |
| Sensors.Imx219Flips | lpx-control/src/imx219_modes.h:611-614 | Bits 0 and 1 of the orientation register are turned over by the vertical and the horizontal flip, in the same register of the same slave. |
| Sensors.Imx219Registers | lpx-control/src/imx219_modes.h:611-623 | In a table for one slave: its registers 0x15A and 0x15B, 0x160 and 0x161, and 0x157 hold the request, most significant byte first, or what they would have held; 0x172 shows the flips. |
| Sensors.Ar0144Unchanged | lpx-control/src/ar0144_modes.h:80-92 | The ar0144 description never changes its table. |
| SensorUpdate.WhichWidthsWork | lpx-control/src/raspiraw.c:1009-1014 | The split writes every value readably over any old contents exactly for whole-byte and single-register widths. |
| SensorUpdate.RaggedWidthFails | lpx-control/src/raspiraw.c:1009-1014 | For any other width, zero written over ones does not read as zero. |
| SensorUpdate.LinesFit | lpx-control/src/raspiraw.c:531-534 | A time of -1 leaves the exposure alone. For every other `int` of microseconds, negative ones included, it becomes the time in whole lines, cut toward zero, exactly when that number is one of an `int`; with lines of a microsecond or more it always is. |

## Left out

- Calls into MMAL, vcos, bcm_host and the i2c driver, sensor probing, and encodings by bit depth: only the register effect of a replay is modelled, and its writes succeed.
- HTTP handling, the reader callback's static position, option parsing and poll loops.
- The train sensor thread, deleting of streams, and clearing of the storage: only easy members.
- Release of memory: objects are garbage collected, so the order in which the raw buffer and the session are freed is not judged.
- Interleaving of a frame callback with the stop of its session, and a second start in one session.
- File-system failures other than a frame file that cannot be created or opened; a short write of a frame is not noticed by the code either.
- Floating-point settings, and fields of the parameter structure that `raspiraw_init` does not set.
- The missing success return of `raw12_to_bmp` is taken as 0, which its caller expects.
- The conversion of `struct timeval` to microseconds: times enter the model as microseconds.
- Loop counters of type `int` over index records, paths and BMP bytes are unbounded here; they would overflow only beyond 2^31.
- `labs` of the most negative 64-bit number is undefined in C; the theorems on lookups exclude offsets for which some difference is that number.
- Server.ReadTimes: the parameter values are collected in a sequence where the code fills an array; the sorting is then done on an array in place.
- Storage.CollectPaths: the paths are collected in a sequence where the code fills an array.
