# Media player: models and proofs

A Dafny model of the hardware-independent algorithms of an Amlogic media player tree: the audio path of
`amadec`, the thread registry of `amavutils`, and the player and transcoder decisions of `amffmpeg`.
Every operation that changes state in C is a method that changes state here (a class with the fields of the C
structure, or arrays written in place), proved equal to a step of a small specification. What the C code is
for is then proved of the specification, over all inputs, runs or interleavings.

`dafny verify dfyconfig.toml` checks everything.

| files | what they model | main results |
|---|---|---|
| `player_timing.dfy` | picture queue and frame timer of the player, two threads | target clocks ascend in every interleaving, no queued slot is overwritten; exactly when the target-clock assertion holds as two reads |
| `subtitle_blend.dfy`, `subtitle_rect.dfy`, `subtitle_chroma.dfy` | blending a subtitle into a 4:2:0 picture | every byte of all three planes after the call, and for which rectangles the chroma is the mean of the covered pixels |
| `stream_select.dfy` | threshold search and stream assignment of the transcoder | the greedy choice is exclusive and has the largest possible minimum |
| `frame_rate.dfy` | frame duplication and dropping | bounded drift, frame count, strictly increasing timestamps |
| `audio_decode.dfy` | package list, reader thread, decode loop | no byte is lost, repeated or moved between stream and decoder, for every format; no frame of an APE stream is skipped |
| `sync_hunt.dfy`, `ape_frame_size.dfy` | the hunt for an APE sync word, and the size behind it | the earliest sync word is the one found; when the size is the one stored plus eight |
| `pcm_ring.dfy` | the PCM byte ring and the wait before a write | any run of the ring is a run of a bounded FIFO; each frame enters whole and once |
| `message_pool.dfy` | the command ring that drops the oldest | the queue is the last commands sent, each one accounted for once |
| `wfd_output.dfy` | 64-byte alignment cache, volume, 2-to-8 channel expansion | what the device is given and the cache are the input, exactly if no call loses bytes |
| `spdif_pack.dfy`, `spdif_ring.dfy` | S/PDIF framing and the DMA ring | a receiver gets the payload back; what is played is the accepted frames in order, with the guard gap kept, and exactly when old bytes are played between them |
| `items.dfy`, `item_list.dfy` | the item list | a linked ring refines a sequence, and touches no other list |
| `thread_registry.dfy`, `thread_pool.dfy` | thread pools, ancestry, cancel flags | over runs with joins in any order, exactly when no thread ever refers to a freed pool; what the pools list |
| `format_listing.dfy` | sorted listings of formats and codecs | each distinct name once, in order, with exactly the flags of all entries of that name |

`bytes.dfy` holds bytes, `memcpy` and joining a list of byte runs, `wrappers.dfy` the optional value.

Where a property one would expect is false of the code, the model keeps the code and states when it holds:

- Subtitles: two faults. With an odd first row and a column left over, the chroma pointers are one cell short
  from the second row on (amffmpeg/ffplay.c:488-499). And in a row left over at the bottom, two columns give their
  cell the sum of both alphas but the colour of the second column only (amffmpeg/ffplay.c:605-617).
  `SubtitleRect.BlendSubrect` says what all bytes are in these cases too. `SubtitleChroma.Intended` says what the
  chroma should be, by the pixels that a byte covers, and `ChromaIsIntendedIff` proves that it is so for all
  pictures of a given shape if and only if neither fault can show: the first row is even, no column is left over,
  or there is one row; and no row is left over at the bottom, or it has no two columns in a cell.
  `ShiftedChroma` and `BottomChroma` give a picture for every failing shape.
- APE size: the eight extra bytes are added to the low byte only (amadec/adec-ffmpeg-mgt.c:993).
  `ApeFrameSize.FrameSizeIsSizePlusEight` gives the exact condition, `FrameSizeLosesCarry` an instance.
- Wireless display: a write of 1 to 63 bytes is thrown away (amadec/adec-wfd-out.cpp:270), and so is a chunk
  that finds no memory for its expansion (amadec/adec-wfd-out.cpp:304-308). `StreamIsKept` says that the
  stream is kept if and only if neither happens.
- S/PDIF raw frames: only whole blocks of 64 bytes are returned; `RawReceived` is an if-and-only-if. A write
  of 0 bytes is accepted even where the guard gap is gone already, which `DmaRing.WriteFrame` states exactly.
- Player: the comparison of two target clocks is two reads, in an order that C leaves open.
  `NextReadLast` proves that it holds if and only if no flush begins between the reads, or the first clock is
  0, when the clock of the picture on show is read first; `NextReadFirst` that it always holds in the other
  order. `TornComparisonFails` is a run that reaches the failure.
- S/PDIF playback: a hardware that catches up with the writer plays the whole ring once more each time.
  `SpdifRing.Playback.Play` says exactly when and what, `InOrderIff` that what is played is in order if and only if
  that never happens.
- Threads: a root joined before its descendants leaves them with a freed pool. `JoinIsSafeIff` gives the
  condition on a single join after joins in any order, `NeverDanglesIff` that on a whole run,
  `OutOfOrderJoinDangles` a run that fails.
- Sync hunt: a read of the hardware that times out halfway has taken bytes out of the stream. The hunt then
  promises nothing until it starts anew, but for the size, where `GetFrameSize` says what is computed.

## Model

| member | source | states |
|---|---|---|
| PlayerTiming.StepKeepsInv | amffmpeg/ffplay.c:1059-1155 | Every step of the decoder thread, the main thread, a flush, an abort or a pause toggle keeps: target clocks ascending from 0 and none after the frame timer, room for the picture about to be queued, zero clocks during a flush, a shown picture at a time already past |
| PlayerTiming.RunKeepsInv | amffmpeg/ffplay.c:1303-1457 | The same over every interleaving from any state that has it |
| PlayerTiming.AssertionNeverFails | amffmpeg/ffplay.c:1135-1138 | From the start of the player, in every interleaving: the assertion, as two reads in either order with others between, fails only if a flush begins after the read of a first clock that is not 0 |
| PlayerTiming.NextReadLast | amffmpeg/ffplay.c:1135-1138 | Read one after the other, with anything the decoder and the user may do between: the assertion holds if and only if no flush begins between the reads, or the clock read first is 0 |
| PlayerTiming.NextReadFirst | amffmpeg/ffplay.c:1135-1138 | Read in the other order, it always holds |
| PlayerTiming.TornComparisonFails | amffmpeg/ffplay.c:1441-1444 | There is a reachable state where a flush between the two reads of the comparison makes it false |
| PlayerTiming.VideoState.PredictPts | amffmpeg/ffplay.c:1303-1321 | A missing time stamp is replaced by the video clock, which moves on by the frame delay; nothing else changes |
| PlayerTiming.VideoState.FindRoom | amffmpeg/ffplay.c:1329-1343 | The wait ends with room, or with an abort |
| PlayerTiming.VideoState.FillSlot | amffmpeg/ffplay.c:1343-1420 | Filling the slot at the write index changes no queued picture |
| PlayerTiming.VideoState.ComputeTargetTime | amffmpeg/ffplay.c:1071-1109 | The frame timer moves by the nominal delay, or the one before if that is implausible; for a slave that is less than 10 s off, by 0 if it is behind by the threshold or more, and by twice the delay if it is ahead by as much |
| PlayerTiming.CorrectedTowardsMaster | amffmpeg/ffplay.c:1085-1101 | The correction is towards the master: behind never waits longer than the nominal delay, ahead never shorter |
| PlayerTiming.VideoState.CountPicture | amffmpeg/ffplay.c:1421-1425 | The filled slot becomes the last picture of the queue, with its target clock |
| PlayerTiming.VideoState.BeginFlush | amffmpeg/ffplay.c:1440-1444 | All queued target clocks become 0 and nothing else changes |
| PlayerTiming.VideoState.EndFlush | amffmpeg/ffplay.c:1451-1453 | The timer restarts at the present time with no known delay |
| PlayerTiming.VideoState.ShowPicture | amffmpeg/ffplay.c:1121-1134 | A picture is shown exactly if there is one and its time has come |
| PlayerTiming.VideoState.CompareClocks | amffmpeg/ffplay.c:1135-1138 | The ring slots compared are those of the next picture and of the one on show, and the comparison is true in every state of the invariant |
| PlayerTiming.VideoState.AdvanceRead | amffmpeg/ffplay.c:1145-1147 | The first picture leaves the queue while its slot still counts as taken |
| PlayerTiming.VideoState.CountPop | amffmpeg/ffplay.c:1149-1152 | The slot is free again |
| PlayerTiming.VideoState.TogglePause | amffmpeg/ffplay.c:1059-1069 | Resuming moves the frame timer on by the time since the picture on show was shown, and re-bases the clock |
| SubtitleBlend.BlendStaysByte | amffmpeg/ffplay.c:401-402 | Every blended value is in 0..255, for sums of one, two or four bytes |
| SubtitleBlend.BlendBetween | amffmpeg/ffplay.c:401-402 | A blended value lies between the old value and the average of the new ones |
| SubtitleBlend.BlendExtremes | amffmpeg/ffplay.c:401-402 | Alpha 0 changes nothing and alpha 255 replaces |
| SubtitleBlend.BlendIsMean | amffmpeg/ffplay.c:401-402 | A blended value is the mean of old and new, weighted by the alpha and rounded down |
| SubtitleBlend.Width2IsSource | amffmpeg/ffplay.c:446 | The number of cells a row touches is the source's bit formula |
| SubtitleBlend.RowsAfterAt | amffmpeg/ffplay.c:501-574 | After a pair of rows each of their pixels is blended exactly once with its own palette entry, and no other byte changes |
| SubtitleBlend.CellsAfterAt | amffmpeg/ffplay.c:501-574 | After a pair of rows exactly the cells that cover its columns are blended, once, with the average of the pixels they cover |
| SubtitleBlend.SingleCellsAfterAt | amffmpeg/ffplay.c:459-494 | After a single row exactly the cells that cover its columns are blended, once, with the average of the pixels they cover; in a row left at the bottom, two pixels count with both alphas but the second colour only |
| SubtitleBlend.BlendRowPair | amffmpeg/ffplay.c:500-574 | All four pointers leave a pair of rows at the start of the next ones; the planes are those of the specification |
| SubtitleBlend.BlendFirstRow | amffmpeg/ffplay.c:454-499 | After an odd first row the luma and bitmap pointers are at the next row, and the chroma pointers are if and only if no column is left over |
| SubtitleBlend.WalkRow | amffmpeg/ffplay.c:575-626 | A single row, at the top or left over at the bottom, leaves the planes of the specification |
| SubtitleRect.Segment | amffmpeg/ffplay.c:442-444 | A position is in a segment of a row exactly if its row is that row and its column is in the segment |
| SubtitleRect.RowAndColumnAreQuotientAndRemainder | amffmpeg/ffplay.c:442-444 | Row and column of a position are its quotient and remainder by the line size |
| SubtitleRect.LumaSpecNext | amffmpeg/ffplay.c:454-626 | One more row changes the luma specification at its own pixels only, from untouched to blended once |
| SubtitleRect.CellPairNext | amffmpeg/ffplay.c:500-574 | Two more rows give the cells of their cell row a mix, which had none before, at the place where the pointers are, and no other cell a new one |
| SubtitleRect.Aligned | amffmpeg/ffplay.c:488-499 | The chroma pointers are at row starts exactly if the first row is even or no column is left over |
| SubtitleRect.RowPair | amffmpeg/ffplay.c:500-574 | The loop body keeps the specification of all planes and the positions of all pointers |
| SubtitleRect.BlendRows | amffmpeg/ffplay.c:454-626 | The three branches together leave all bytes of the three planes as specified; after the pairs the chroma pointers are at row starts if and only if the first row is even or no column is left over |
| SubtitleRect.BlendSubrect | amffmpeg/ffplay.c:430-628 | A rectangle inside the picture is blended where it is, any other is cut to the size of the picture and moved to the nearest place inside; each luma byte is blended once with its own palette entry if it lies in that rectangle and else unchanged; each chroma byte is blended with the mixes of the cells that fall on it, also where the pointers fall behind |
| SubtitleRect.LumaIsBlended | amffmpeg/ffplay.c:430-628 | The luma byte at row y and column x in plain numbers: the weighted mean with the palette entry of its pixel inside the rectangle, the old byte outside |
| SubtitleChroma.TakenIsMean | amffmpeg/ffplay.c:454-626 | What the three branches take for a cell, if no pointer is behind, is the mean of the pixels it covers, but for two columns of a row left at the bottom |
| SubtitleChroma.ChromaAsIntended | amffmpeg/ffplay.c:454-626 | For the rectangles that fit, each chroma byte ends as the old one blended once with the mean of the rectangle's pixels that it covers |
| SubtitleChroma.ShiftedChroma | amffmpeg/ffplay.c:488-499 | If the pointers fall behind and a row follows, there is a picture of the same shape with a byte that does not |
| SubtitleChroma.BottomChroma | amffmpeg/ffplay.c:605-617 | So there is if two columns share a cell in the row left at the bottom: 63 instead of 127 |
| SubtitleChroma.ChromaIsIntendedIff | amffmpeg/ffplay.c:454-626 | So the chroma is as intended for all pictures of a shape if and only if the rectangle fits |
| StreamSelect.Halve | amffmpeg/ffmpeg.c:2073-2102 | One trial of a threshold halves the interval that holds the greatest one |
| StreamSelect.CountMeeting | amffmpeg/ffmpeg.c:2078-2098 | The pass over the inputs counts, for each media type, the eligible ones at or above its threshold |
| StreamSelect.MeetingIs | amffmpeg/ffmpeg.c:2078-2095 | Eligible is an input that is not discarded for good, in the program if one is selected, of the type, and probed for as many frames as the threshold |
| StreamSelect.ThresholdSearch | amffmpeg/ffmpeg.c:2073-2102 | For each media type: the greatest threshold in 1..2^31-1 that enough inputs meet, or 0 if there is none |
| StreamSelect.FindUnused | amffmpeg/ffmpeg.c:2127-2150 | The first unused eligible input of the type at or above the threshold, or none exists |
| StreamSelect.FindReusable | amffmpeg/ffmpeg.c:2152-2162 | The last input of the type that is not discarded for good, or none exists |
| StreamSelect.UnusedInputExists | amffmpeg/ffmpeg.c:2124-2150 | If there are enough inputs, an output never finds all of them taken |
| StreamSelect.GreedyIsExclusive | amffmpeg/ffmpeg.c:2103-2178 | The rule then never gives an input twice |
| StreamSelect.ExclusiveNeedsEnough | amffmpeg/ffmpeg.c:2103-2178 | Conversely, an assignment without repetition shows that there were enough |
| StreamSelect.NoChoiceIsBetter | amffmpeg/ffmpeg.c:2073-2102 | Any choice of enough eligible inputs holds one that does not exceed the threshold |
| StreamSelect.Assign | amffmpeg/ffmpeg.c:2103-2178 | Every output gets what the greedy rule gives; it fails exactly if there are too few inputs (a program is selected) or some type has no input at all |
| StreamSelect.GreedyIsBest | amffmpeg/ffmpeg.c:2073-2178 | The least probed input chosen for a type is the best that any choice of as many eligible inputs could have |
| StreamSelect.SelectStreams | amffmpeg/ffmpeg.c:2067-2179 | With enough inputs, all outputs get distinct eligible inputs of their own type with the largest possible minimum; else the result or the failure is exactly that of the rule |
| FrameRate.Round | amffmpeg/ffmpeg.c:1183-1197 | `lrintf`: the nearest integer, and the even one of two |
| FrameRate.ConstantRateCall | amffmpeg/ffmpeg.c:1174-1201 | After a call at constant rate that is not cut by the frame limit, the counter is at most 0.5 behind its input, and at most 2.1 ahead if and only if it was so before |
| FrameRate.VariableRateCall | amffmpeg/ffmpeg.c:1174-1186 | A call at variable rate drops its frame exactly when the counter is 0.6 or more ahead; else its time stamp is at most 0.6 off, and the counter itself if that is not more than 0.6 behind |
| FrameRate.BoundedDrift | amffmpeg/ffmpeg.c:1167-1201 | Over any run with non-decreasing times the counter stays in [time - 0.5, time + 2.1] |
| FrameRate.FramesAddUp | amffmpeg/ffmpeg.c:1187-1201 | Frames encoded, plus those the limit cut, are calls less drops plus dups |
| FrameRate.StepOrdered | amffmpeg/ffmpeg.c:1292-1331 | One call gives time stamps at or past the counter, whatever its input time |
| FrameRate.TimestampsIncrease | amffmpeg/ffmpeg.c:1174-1332 | In the constant and the variable mode time stamps strictly increase over any run |
| FrameRate.PassthroughFollowsInput | amffmpeg/ffmpeg.c:1196-1201 | With sync method 0 the time stamps are the rounded input times, as many as the frame limit allows |
| FrameRate.OutputStream.DoVideoOut | amffmpeg/ffmpeg.c:1153-1333 | For each mode how many frames are wanted and from which time stamp on; how many the limit lets through; counter, drops, dups and time stamps after the call |
| AudioDecode.PackageList.Add | amadec/adec-ffmpeg-mgt.c:140-165 | Appends at the end; refuses a fifth package with -2 and answers -1 without memory, unchanged |
| AudioDecode.PackageList.Get | amadec/adec-ffmpeg-mgt.c:167-184 | Takes the first package, which is no longer in the list; none if and only if the list is empty |
| AudioDecode.PackageList.Free | amadec/adec-ffmpeg-mgt.c:117-129 | Empties the list, stepping over exactly its packages |
| AudioDecode.TrailNext | amadec/adec-ffmpeg-mgt.c:1250-1251 | One more piece extends what the trail holds, and what of it was decoded |
| AudioDecode.DecodeLoop.Consume | amadec/adec-ffmpeg-mgt.c:1250-1251 | A successful decode moves exactly its bytes from the buffer to the trail |
| AudioDecode.DecodeLoop.DecodeFailed | amadec/adec-ffmpeg-mgt.c:1235-1248 | A failure counts as an error; APE gives the rest up, every other format carries all of it |
| AudioDecode.DecodeLoop.Postpone | amadec/adec-ffmpeg-mgt.c:1217-1226 | A COOK, RAAC or AMR buffer that wants a burst is carried whole |
| AudioDecode.DecodeLoop.Account | amadec/adec-ffmpeg-mgt.c:1253-1275 | When an AAC rest waits, when a burst is wanted, and the offset: the decoder's own for COOK and RAAC, else the bytes consumed |
| AudioDecode.DecodeLoop.DecodeNow | amadec/adec-ffmpeg-mgt.c:1228-1275 | One call of any decoder: the bytes consumed leave the buffer once, the error count is reset or raised |
| AudioDecode.DecodeLoop.DecodeOnce | amadec/adec-ffmpeg-mgt.c:1217-1275 | A buffer of COOK, RAAC or AMR that wants a burst waits whole, without a call; any other is given to the decoder once: the bytes it takes are done with and errors are reset, or it fails and all of them are kept (APE: given up) |
| AudioDecode.DecodeLoop.DecodePackage | amadec/adec-ffmpeg-mgt.c:1194-1290 | For any decoder, decoded bytes and carried rest stay equal to the bytes given, and `decode_offset` to the bytes consumed (not COOK, RAAC); a rest is carried only after a failure, for a burst, or of an AAC buffer without sound; without a failure or an exit none is given up, and a plain format decodes everything |
| AudioDecode.ReadPackage | amadec/adec-ffmpeg-mgt.c:1074-1105 | However short the reads, a package is the next bytes of the stream, full sized unless an exit or the wireless-display rule ends it; only a faulty read loses bytes |
| AudioDecode.TakeTurn | amadec/adec-ffmpeg-mgt.c:1056-1119 | A turn of either thread keeps: bytes packaged = given to the decode loop, then queued, then waiting; and it does its part: a package is read, the waiting one queued if there is room, the first one decoded |
| AudioDecode.FramesNext | amadec/adec-ffmpeg-mgt.c:1066-1105 | One more frame, where the one before ends, extends the frames of the stream and the bytes taken by its own |
| AudioDecode.FramesUnique | amadec/adec-ffmpeg-mgt.c:943-1000 | Which frames there are depends on the stream alone: of two chains of frames on it, one is the beginning of the other |
| AudioDecode.Reader.Hunt | amadec/adec-ffmpeg-mgt.c:1066-1072 | An APE package starts right behind a size and the earliest sync word since the end of the last frame, empty frames included; any other format takes the default size and skips nothing |
| AudioDecode.Reader.ReadNext | amadec/adec-ffmpeg-mgt.c:1056-1119 | A turn of the package loop takes at most one package, and keeps that the packages are the whole stream, or all APE frames in it from the start on, each of its full size unless an exit cut the last one short |
| AudioDecode.Interleave | amadec/adec-ffmpeg-mgt.c:1056-1290 | Every interleaving of the two threads keeps, for every format, that what was packaged is what was given to the decode loop, what is queued and what waits |
| AudioDecode.Pipeline | amadec/adec-ffmpeg-mgt.c:1056-1290 | From the start of any stream, in every interleaving: the bytes of all packages are those consumed, carried, queued and waiting, in this order; none is given up before an exit, except by APE decode errors; if no read was torn they are the whole stream, or for APE every frame from the start on, and the hunt behind the last one has met no other |
| SyncHunt.NoSyncSlides | amadec/adec-ffmpeg-mgt.c:976-981 | A window without the sync word extends the part that has none |
| SyncHunt.FirstSyncUnique | amadec/adec-ffmpeg-mgt.c:972-976 | The earliest sync word is unique |
| SyncHunt.StartCode.GetFrameSize | amadec/adec-ffmpeg-mgt.c:943-1000 | One call, with reads that may give nothing or be torn: what it answers, what it consumes, that a size is read only right behind the earliest sync word, and which size a torn read gives |
| SyncHunt.Stream.ReadBuffer | amadec/adec_read.c:117-193 | All the bytes asked for or none, in order; or a torn read that takes some and answers their number or 0 |
| SyncHunt.StartCode.MatchWindow | amadec/adec-ffmpeg-mgt.c:964-985 | The four-byte window accepts exactly "APTS", and otherwise slides by one |
| SyncHunt.StartCode.ReadSize | amadec/adec-ffmpeg-mgt.c:987-997 | The size is that of the four bytes behind the sync word; a torn read leaves the end of the sync word in the place of the missing ones |
| SyncHunt.NextFrameSize | amadec/adec-ffmpeg-mgt.c:1066-1072 | Over repeated calls, from the start or after an earlier frame, the input is consumed exactly through the earliest sync word and the four bytes behind it, if no read is torn |
| ApeFrameSize.BitsAreSums | amadec/adec-ffmpeg-mgt.c:993 | On machine words, shifting and oring the bytes is the sum that the model computes |
| ApeFrameSize.FrameSizeIsSizePlusEight | amadec/adec-ffmpeg-mgt.c:993-994 | The size is the stored one plus eight, rounded up to four, if and only if the low byte is below 248 or the next one is even |
| ApeFrameSize.FrameSizeIsRoundedUp | amadec/adec-ffmpeg-mgt.c:993-994 | Below the sign bit the size is the least multiple of four from the stored one plus eight on, less 256 exactly where the carry is lost |
| ApeFrameSize.SignedIsWord | amadec/adec-ffmpeg-mgt.c:993-994 | Any size is that number as a 32-bit word |
| ApeFrameSize.FrameSizeIsNotDefault | amadec/adec-ffmpeg-mgt.c:1067-1068 | No frame size is taken for the -1 that means the default size |
| ApeFrameSize.FrameSizeLosesCarry | amadec/adec-ffmpeg-mgt.c:993-994 | A stored size of 504 asks for 512 bytes and 256 are read |
| PcmRing.WrapIsModular | amadec/adec_write.c:91-117 | The ring position is the one modulo the buffer length |
| PcmRing.BufferStream.InitBuff | amadec/adec_write.c:3-21 | A fresh empty ring of the given length; without memory -1, the old buffer is forgotten, and a ring in use is broken |
| PcmRing.BufferStream.ReadData | amadec/adec_write.c:79-122 | Takes the oldest min(level, size) bytes, in order: one read of the queue |
| PcmRing.BufferStream.WriteData | amadec/adec_write.c:132-177 | Appends the first min(free, size) bytes: one write of the queue |
| PcmRing.BufferStream.CopyOut | amadec/adec_write.c:90-119 | The three branches copy the positions from the read pointer on, round the end |
| PcmRing.BufferStream.CopyIn | amadec/adec_write.c:145-174 | The three branches fill the positions from the write pointer on, round the end, and no others |
| PcmRing.After | amadec/adec_write.c:79-186 | No run of the queue overfills it |
| PcmRing.StepInOrder | amadec/adec_write.c:79-186 | A read or write keeps: delivered bytes followed by buffered bytes are the accepted bytes |
| PcmRing.FirstInFirstOut | amadec/adec_write.c:79-186 | The same over any run of reads and writes |
| PcmRing.Perform | amadec/adec_write.c:79-186 | Any run of reads and writes on a new ring is that run of the queue, and the bytes really read are those it delivers |
| PcmRing.TryWrite | amadec/adec-ffmpeg-mgt.c:1281-1287 | One turn of the wait writes the whole frame exactly if it fits beside what the readers have left at the test, and else nothing, with readers before and after the test |
| PcmRing.WriteFrame | amadec/adec-ffmpeg-mgt.c:1277-1289 | With readers at any point, a frame enters as one contiguous run, once, or not at all; one that fits does enter once the readers catch up; the cache size ends as what is left |
| MessagePool.StepAccounted | amadec/adec-message.c:106-152 | A send or get keeps every command accounted for once |
| MessagePool.RunAccounted | amadec/adec-message.c:89-155 | After any run each command sent is, in order, delivered or freed once, or queued; the queue is the last ones sent |
| MessagePool.NothingRefused | amadec/adec-message.c:106-122 | The commands sent are all that senders sent, in order |
| MessagePool.WrapIsModular | amadec/adec-message.c:106-150 | `in == (out + num) mod 12` |
| MessagePool.Pool.Send | amadec/adec-message.c:106-124 | Appends a command; on a full ring the oldest is freed |
| MessagePool.Pool.Get | amadec/adec-message.c:134-155 | Delivers the oldest command, or nothing if and only if there is none |
| MessagePool.Pool.SendMessage | amadec/adec-message.c:89-127 | A sender naps as long as more than six commands are queued, at most ten times for each one too many and never more than 62 times however the others behave, and then always sends |
| WfdOutput.SampleBytes | amadec/adec-wfd-out.cpp:117-123 | Samples and their two bytes convert back and forth |
| WfdOutput.ApplyStreamVolume | amadec/adec-wfd-out.cpp:117-123 | Every whole 16-bit sample is scaled in place, truncated towards zero; an odd last byte stays |
| WfdOutput.ScaledIsProduct | amadec/adec-wfd-out.cpp:117-123 | A scaled sample is the sample times the volume, truncated: no larger, of the same sign, less than 1 off |
| WfdOutput.SampleIsLittleEndian | amadec/adec-wfd-out.cpp:117-123 | A sample is its two bytes, the low one first |
| WfdOutput.OddByteStays | amadec/adec-wfd-out.cpp:117-123 | An odd last byte is not scaled |
| WfdOutput.StepConserves | amadec/adec-wfd-out.cpp:258-334 | A call extends the stereo stream that the device can recover, followed by the cache, by exactly its bytes, or leaves it shorter if it loses bytes |
| WfdOutput.ChunksAreAligned | amadec/adec-wfd-out.cpp:289-294 | Every chunk the device is given is a multiple of 64 bytes of the stereo stream, and the cache is below 64 |
| WfdOutput.StreamIsKept | amadec/adec-wfd-out.cpp:258-334 | After any calls, the recovered stream followed by the cache is the whole input if and only if no write has 1 to 63 bytes and no expansion lacks memory; else it is shorter |
| WfdOutput.ExpandKeepsStereo | amadec/adec-wfd-out.cpp:309-324 | Channels 0 and 1 of the expansion recover the stereo stream, and it is eight times as large |
| WfdOutput.ExpandAt | amadec/adec-wfd-out.cpp:309-324 | All eight channels of each frame: left, right, left, right in the upper half-words, and four times silence |
| WfdOutput.ExpandFrames | amadec/adec-wfd-out.cpp:304-324 | The loop writes the expansion of the chunk |
| WfdOutput.PcmOutput.Realign | amadec/adec-wfd-out.cpp:275-300 | The output buffer holds the aligned prefix of cache and input, the cache the rest |
| WfdOutput.PcmOutput.Write | amadec/adec-wfd-out.cpp:258-334 | The whole call: volume, alignment, expansion or its failure, return value, and what the device is given |
| SpdifPack.TargetInvertsOrigin | amadec/spdif_api.c:111-120 | The byte permutation of a block and its inverse |
| SpdifPack.BlockRoundTrip | amadec/spdif_api.c:111-120 | De-interleaving a block and interleaving it undo each other |
| SpdifPack.RoundTrip | amadec/spdif_api.c:111-120 | Likewise for any number of blocks |
| SpdifPack.DeinterleavedAt | amadec/spdif_api.c:111-120 | Of each block, the even 16-bit samples come first and then the odd ones |
| SpdifPack.Ac3Received | amadec/spdif_api.c:101-122 | Re-interleaving an AC3 burst gives the preamble words, the payload up to 6136 bytes and zeros |
| SpdifPack.DtsReceived | amadec/spdif_api.c:124-146 | Likewise for DTS, whose burst holds the first 2040 bytes of a payload |
| SpdifPack.RawReceived | amadec/spdif_api.c:148-164 | A raw frame comes back cut to whole blocks: itself if and only if its size is a multiple of 64 |
| SpdifPack.Packer.FillBurst | amadec/spdif_api.c:102-107 | The static buffer holds preamble, payload and zero stuffing |
| SpdifPack.Packer.RewriteBlock | amadec/spdif_api.c:112-117 | The inner loop de-interleaves one block and touches nothing else |
| SpdifPack.Packer.Rewrite | amadec/spdif_api.c:108-120 | The two loops de-interleave all blocks up to the limit |
| SpdifPack.Packer.PackFrame | amadec/spdif_api.c:96-166 | All three branches leave the packed frame, return its length, and keep the rest of the buffer beyond it |
| SpdifRing.RoomIsModular | amadec/spdif_api.c:182-186 | The branching room is the distance modulo the ring size |
| SpdifRing.DmaRing.SpaceSize | amadec/spdif_api.c:168-188 | The room less the guard gap, after the first-write reset |
| SpdifRing.Start | amadec/spdif_api.c:172-181 | On the first write the hardware is left at least 20 ms to play, and exactly that if the offset had to be moved; later the offset stays |
| SpdifRing.DmaRing.Lay | amadec/spdif_api.c:214-260 | The frame fills the positions from the write offset on, round the end, and no others, through the mapped buffer and through `write` |
| SpdifRing.DmaRing.Place | amadec/spdif_api.c:214-260 | So it is appended to what the hardware has to play |
| SpdifRing.DmaRing.WriteFrame | amadec/spdif_api.c:189-262 | Refused exactly if the room is too small; else appended, nothing unplayed is altered, and exactly when the 4096-byte gap is kept |
| SpdifRing.HardwarePlays | amadec/spdif_api.c:182-187 | As the hardware plays on, the pending bytes lose their first ones and the room grows by as much |
| SpdifRing.Playback.Write | amadec/spdif_api.c:189-262 | Whatever the order of writes and of playing: bytes played, followed by those still to play, are the lead, the accepted frames in order, each once, and the whole ring again for each time it was caught up with |
| SpdifRing.Playback.PlayByte | amadec/spdif_api.c:168-187 | Likewise as the hardware plays one byte; after the last one of those to play it starts on the whole ring |
| SpdifRing.Playback.Play | amadec/spdif_api.c:168-187 | Likewise for any number of bytes: nothing is repeated if and only if they are fewer than those still to play |
| SpdifRing.InOrderIff | amadec/spdif_api.c:168-262 | What is played is the accepted frames in order if and only if nothing is repeated |
| SpdifRing.CaughtUpLooksFull | amadec/spdif_api.c:182-187 | A hardware that has played everything makes the ring look full |
| Items.FindMember | amavutils/itemlist.c:165-183 | Finding is membership, and exact where data words are unique |
| Items.RemoveMember | amavutils/itemlist.c:145-163 | Removing takes out exactly the item with this data |
| Items.FirstMatch | amavutils/itemlist.c:145-183 | The first match decides what is found and what is removed |
| ItemList.LinkTail | amavutils/include/list.h:19-43 | Splicing in before the head keeps the ring linked both ways, one node longer |
| ItemList.Unlink | amavutils/include/list.h:29-50 | Splicing out keeps the ring linked both ways, one node shorter |
| ItemList.List.AddTail | amavutils/itemlist.c:42-53 | Appends, or refuses a full list with -1; no other list changes |
| ItemList.List.GetHead | amavutils/itemlist.c:55-69 | Takes out the first item, none if and only if empty |
| ItemList.List.GetTail | amavutils/itemlist.c:70-85 | Takes out the last item, none if and only if empty |
| ItemList.List.Delete | amavutils/itemlist.c:111-125 | Takes out exactly this item; no other list changes |
| ItemList.List.FindMatch | amavutils/itemlist.c:165-183 | The first item with this data, or there is none |
| ItemList.List.GetMatch | amavutils/itemlist.c:145-163 | Takes out the first item with this data |
| ItemList.List.AddTailData | amavutils/itemlist.c:210-230 | Appends new data; known data, no memory and a full list leave it as it is, with the three return values |
| ItemList.List.Clean | amavutils/itemlist.c:127-143 | Empties the list |
| ThreadRegistry.InheritedEntries | amavutils/amthreadpool.c:329-334 | Entry by entry, `ppid` is the creator and then the creator's entries as long as none so far is zero |
| ThreadRegistry.InheritedIsPrefix | amavutils/amthreadpool.c:329-334 | So it is the first eight entries of the chain of creators |
| ThreadRegistry.StartedInside | amavutils/amthreadpool.c:326-338 | After joins in any order, a thread of a registered creator enters its pool, and the registry stays intact |
| ThreadRegistry.StartedOutside | amavutils/amthreadpool.c:97-103 | One of an unregistered creator opens a pool of its own, likewise |
| ThreadRegistry.InsideRecord | amavutils/amthreadpool.c:326-338 | A start by a registered thread adds one record, at the end of the list of all threads and of that of the creator's pool, and changes no other |
| ThreadRegistry.NewAncestry | amavutils/amthreadpool.c:326-338 | with its `ppid` entry by entry |
| ThreadRegistry.OutsideRecord | amavutils/amthreadpool.c:97-103 | A start by any other thread adds a record with its creator alone, and a pool that lists nobody |
| ThreadRegistry.StartInside | amavutils/amthreadpool.c:326-338 | With joins in due order, starting a thread of a registered creator keeps the whole invariant |
| ThreadRegistry.StartOutside | amavutils/amthreadpool.c:97-103 | So does starting one of an unregistered creator, with a pool of its own |
| ThreadRegistry.EmptyListIsUnused | amavutils/amthreadpool.c:132-134 | A root's pool has an empty list if and only if no other thread refers to it |
| ThreadRegistry.JoinKeepsInv | amavutils/amthreadpool.c:104-136 | A join after those of all threads it created keeps the whole invariant and reads no freed pool |
| ThreadRegistry.JoinIsSafeIff | amavutils/amthreadpool.c:104-136 | After joins in any order, a join leaves a dangling pool if and only if it is that of a root whose list is not empty |
| ThreadRegistry.JoinKeepsIntact | amavutils/amthreadpool.c:104-136 | Any other join keeps the registry intact |
| ThreadRegistry.JoinDrops | amavutils/amthreadpool.c:104-136 | A join in any order drops this record, takes the thread out of both lists, keeps all other entries, and frees the pool of a root only |
| ThreadRegistry.NeverDanglesIff | amavutils/amthreadpool.c:63-346 | Over any run, with joins in any order, no thread ever refers to a freed pool if and only if no root is joined while its pool lists a thread |
| ThreadRegistry.DueOrderIsSafe | amavutils/amthreadpool.c:104-136 | A run with joins in due order has no such join |
| ThreadRegistry.CancelKeepsInv | amavutils/amthreadpool.c:260-282 | Cancelling keeps the invariant |
| ThreadRegistry.StepKeepsInv | amavutils/amthreadpool.c:104-346 | Every start, join, cancel or sleep keeps the invariant |
| ThreadRegistry.PoolListsDescendants | amavutils/amthreadpool.c:90-103 | Each registered root owns exactly one pool, which lists exactly its registered descendants |
| ThreadRegistry.RegistryIsSafe | amavutils/amthreadpool.c:63-346 | Over any run with joins in due order: no dangling pool, each `ppid` the nearest eight creators followed by zeros, pools of roots only, and each lists the descendants of its root |
| ThreadRegistry.OutOfOrderJoinDangles | amavutils/amthreadpool.c:132-134 | A run in which joining the root before its child leaves a dangling pool |
| ThreadRegistry.CancelReaches | amavutils/amthreadpool.c:260-300 | Cancelling all threads of a root reaches it and its descendants and nobody else; any other cancel reaches one thread |
| ThreadRegistry.CancelPersists | amavutils/amthreadpool.c:205-210 | No start, join or sleep withdraws a pending cancel |
| ThreadRegistry.SleptCountsDown | amavutils/amthreadpool.c:191-210 | A sleep counts the sleeping thread's pending cancel down by one, not below 1, and touches nothing else |
| ThreadPool.CopyAncestry | amavutils/amthreadpool.c:329-334 | The copying loop computes the inherited `ppid`, entry by entry |
| ThreadPool.CancelledIsFlagged | amavutils/amthreadpool.c:266-279 | The threads that a cancel reaches are the listed ones and the thread itself |
| ThreadPool.System.AddInside | amavutils/amthreadpool.c:90-103 | The linked lists of the pool and of all threads get one more item |
| ThreadPool.System.AddOutside | amavutils/amthreadpool.c:63-103 | A new pool with an empty list is listed, and the thread with it |
| ThreadPool.System.StartThread | amavutils/amthreadpool.c:317-339 | What the linked lists hold after a start, and the records, are the registry of the model |
| ThreadPool.System.JoinThread | amavutils/amthreadpool.c:393-399 | Likewise after a join in any order; a thread is left with a freed pool if and only if it was premature; -2 if joined before |
| ThreadPool.System.Release | amavutils/amthreadpool.c:302-314 | The first pool of this thread in the linked list is taken out and freed |
| ThreadPool.System.CancelThread | amavutils/amthreadpool.c:260-300 | The flags after a cancel are those of the model; the lists stay |
| ThreadPool.System.FlagList | amavutils/amthreadpool.c:273-277 | The walk along the linked list sets the flag of exactly the listed threads |
| ThreadPool.System.SleepThread | amavutils/amthreadpool.c:191-210 | A sleep counts a pending cancel down, never below 1 |
| ThreadPool.System.Perform | amavutils/amthreadpool.c:191-399 | Any event on the lists and records is one step of a run with joins in any order |
| FormatListing.LessIsBefore | amffmpeg/cmdutils.c:670-671 | `strcmp` is the order of a dictionary: a proper prefix, or smaller where the names first differ |
| FormatListing.LessTotal | amffmpeg/cmdutils.c:670-671 | The string order is total |
| FormatListing.LessTransitive | amffmpeg/cmdutils.c:670-671 | and transitive |
| FormatListing.BestIsLeast | amffmpeg/cmdutils.c:669-676 | A scan finds the least name above the last one printed, or there is none |
| FormatListing.FormatRound | amffmpeg/cmdutils.c:664-686 | A round finds the next name in both registries, its flags and the long name of its first entry |
| FormatListing.ShowFormats | amffmpeg/cmdutils.c:651-698 | Terminates and lists each distinct name above "000" once in strictly increasing order, with decode and encode exactly where some demuxer or muxer has the name |
| FormatListing.NamesAreListed | amffmpeg/cmdutils.c:670-671 | In particular every name that starts with a letter is listed |
| FormatListing.LongNameIsFirst | amffmpeg/cmdutils.c:664-686 | The long name of a row is that of the first entry with the name |
| FormatListing.CodecRowGrows | amffmpeg/cmdutils.c:722-726 | Merging one more entry keeps a row the union of all entries of its name |
| FormatListing.CodecRound | amffmpeg/cmdutils.c:705-728 | A round finds the next name with the union of flags and capabilities of its entries |
| FormatListing.ShowCodecs | amffmpeg/cmdutils.c:700-754 | Likewise for codecs: each name once, in order, with exactly the flags and capability bits of all its entries |

## Left out

- PlayerTiming.NextReadFirst: a lock region is one step, so the two slots that a flush resets change together for a reader outside the lock.
- PlayerTiming: frame skipping, the subtitle queue, allocation of overlays, display and the packet queue are not part of the model. Clocks are exact reals, and what the master clock says is arbitrary.
- SubtitleRect.BlendSubrect: takes a rectangle of at least one pixel. With width 0 and an odd `x` the C code would still paint a pixel. The planes and the bitmap are as large as their line sizes say.
- StreamSelect: explicit stream maps are not modelled, nor the encoder parameters chosen afterwards. All inputs start unused.
- FrameRate: times are exact reals. What the encoder does with a frame is left out, and so is how the input time is computed.
- AudioDecode: memory for the carried rest and for joining it with a package is assumed to be there. The decoder is any function that consumes at most what it is given. Writing PCM after a decode is in `PcmRing.WriteFrame`.
- AudioDecode.Pipeline: nothing is said about which bytes go into a package once a read was torn.
- SyncHunt.NextFrameSize: once a read is torn, only a hunt that begins later keeps its promise.
- ApeFrameSize.FrameSizeIsSizePlusEight: the four bytes count as unsigned; on a compiler with a signed `char` they would be sign-extended.
- PcmRing: the mutex makes each read and write one step.
- MessagePool: memory for commands and waking the receiver.
- WfdOutput.PcmOutput.Write: the aligned bytes must fit the local buffer of 8192 bytes. The C code prints a message and copies beyond it.
- WfdOutput.ApplyStreamVolume: the volume is an exact real from 0 to 1.
- SpdifRing.DmaRing.WriteFrame: the ring is at least 3840 bytes large, as the 20 ms lead needs. The read offset is whatever the hardware reports in the call.
- SpdifRing.DmaRing.Lay: `use_kernel_wr` is 1 and nothing changes it, so the live path is `write`. The driver is not part of this model; it is taken to store from the offset on that it was last given. Both paths are modelled; mapping and syncing are left out.
- SpdifRing.Playback.Play: bytes that a write replaces just as the hardware plays them; a call is one step.
- SpdifPack.Packer.PackFrame: the buffer holds what is written back to it, and the payload with its header fits a burst of 6144 bytes; the C code checks neither. Words are stored as a little-endian processor does.
- ItemList: peeking, inserting before a position, matching with a caller's function and printing add only easy members.
- ThreadRegistry: each operation is one step. Memory is always there, addresses and thread ids are not reused while they are in use, and a thread that ends without being joined stays registered. A run ends where a thread refers to a freed pool: the C code has no defined behaviour from there on.
- ThreadPool.System.SleepThread: the wait itself and its duration.
- FormatListing.ShowCodecs: capabilities are sets of bits, and the rows are values; printing them is left out.
- Codec libraries, resampling, `synchronize_audio`, DTS encoding, ALSA, SDL, binder and drm code, video and subtitle decoders of the platform, configuration keys and example players.
