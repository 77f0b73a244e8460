# A verified model of AWTRIX NG's media, log, audio and app logic

AWTRIX NG drives a pixel clock: it decodes GIF icons on a small heap, keeps a log ring that must survive an
exhausted heap, hands one-shot sounds from the main loop to an audio task, rotates apps the user arranged,
writes script state back to a flash file system, matches MQTT topics and packs bitmap fonts. This project
models those parts in Dafny and proves what they promise, for all inputs, all runs and all interleavings.

Each part pairs an implementation in the source's own form (classes whose methods update fields, loops over
buffers) with a specification over values, and then proves laws about the specification.

- **GIF decoder.** `Lzw` is a reference decoder with an unbounded dictionary and no stack; `LzwEncoder`
  describes every stream an encoder may write and proves that decoding inverts it; `MicroGif.LzwDecode`
  works on tables sized to the frame and is proved equal to the reference on every byte string. `Gif` is
  the block parser, disposal and compositing on values, `GifDecoder.MicroGif` the decoder that implements
  it on a canvas and a heap, and `GifLaws` what every run keeps: frame counts bound decoding, restoring a
  frame undoes it exactly, a refused allocation can be retried as if nothing had happened. `GifEncoder` lays
  whole files out byte by byte, says pixel by pixel what a viewer shows of them, and proves that the decoder
  shows exactly that.
- **Memory.** `PodBuffers` is the growable buffer with a heap that counts bytes, `ScratchPools` the
  intrusive doubly linked list of claims on one workspace, and `Footprint.GifPlayer` the player whose bytes,
  frame, restore buffer and workspace share one heap, with the bound on that heap's peak.
- **Audio hand-off.** `AudioHandoff` is a step relation with a program counter for each of the two threads,
  one shared access a step; `AudioLaws` proves an inductive invariant and from it safety in every schedule,
  `AudioOperations` that each operation asked for happens, whatever runs in between.
- **Log.** `Utf8` is the repair in place, `LogRing` the byte ring as the end of an endless tape of records,
  with a reader that drops the lock between lines.
- **Apps.** `PushedApps`, `AppLoop`, `AppHosts` and `Engines` are the pushed-app list, the rotation, the
  display's list and the engine with its sessions.
- **Stores and algorithms.** `ScriptStores` is the write-back store, `AlphaOrder` the natural order of names,
  `TopicMatch` the topic matcher, `FontPack` and `FontTables` the panel fonts' packer and the renderer's lookup,
  `MatrixFonts` the packer of the matrix set, `TextRenderer` the loop that draws their bits.

Three properties turned out different from what one would expect of the code:

- With a minimum code size of 1 the LZW decoder's width never grows: the first free code already equals the
  first limit, and the test compares for equality just after an increment. Decoding inverts encoding exactly
  for code sizes from 2 up (`LzwEncoder.RoundTripExactly`), with a concrete stream for size 1. GIF89a itself
  has encoders send 2 for one-bit images.
- The font generator's comment ends a run where more than eight code points are missing; the code ends it
  where eight are, because it compares the distance of the last two code points present. Neighbours share a
  run exactly if their distance is at most eight (`FontTables.SplitBetween`); two code points with exactly
  eight missing between them are two runs (`FontTables.EightMissing`).
- Removing a script does not always remove its state: the source ignores whether its file could be removed.
  Its state reads as nothing exactly if the file went, or held nothing (`ScriptStores.WithoutReads`); a file
  that stays brings back a state older than the last accepted one (`ScriptStores.UpdateAndRemove`, and
  `ScriptStores.OldStateReturns` for one such run).

## Model

| member | source | states |
|---|---|---|
| `Lzw.Apply` | src/media/MicroGif.cpp:425-468 | one code against an unbounded dictionary keeps it well formed and only ever adds pixels, never more than the frame holds |
| `Lzw.Frame` | src/media/MicroGif.cpp:380-493 | a verdict of pixels is exactly the frame's number of indices, whatever the stream |
| `Lzw.ChainEndSkips` | src/media/MicroGif.cpp:480-491 | stepping over the rest of a sub-block ends where reading it byte by byte would, cut-off chains included |
| `LzwEncoder.SameWidth` | src/media/MicroGif.cpp:457-465 | the encoder writes each code at the width the decoder reads it at, through growth, the full table and clears |
| `LzwEncoder.CodeFollows` | src/media/MicroGif.cpp:436-466 | a code of the encoder, the one just being defined included, is legal for the decoder, means the same pixels and keeps both tables in step |
| `LzwEncoder.RoundTrip` | src/media/MicroGif.cpp:380-470 | from code size 2 up every stream of codes and clears decodes to exactly its pixels, whatever follows |
| `LzwEncoder.RoundTripExactly` | src/media/MicroGif.cpp:383-465 | decoding inverts every encoding if and only if the minimum code size is at least 2 |
| `LzwEncoder.OneBitStream` | src/media/MicroGif.cpp:383-465 | the stream for pixels 0, 1, 1 at code size 1 decodes to 0, 1, 0 |
| `LzwEncoder.GreedyEncodes` | src/media/MicroGif.cpp:436-466 | longest-match encoding is one of the encodings, so every image has one |
| `LzwEncoder.ChainRoundTrip` | src/media/MicroGif.cpp:394-415 | reading a sub-block chain, cut anywhere, gives its blocks joined and ends right behind it |
| `LzwEncoder.FrameRoundTrip` | src/media/MicroGif.cpp:380-493 | pixels encoded, packed and cut into sub-blocks in any way, with anything behind, decode to those pixels and leave the reader behind the chain |
| `LzwEncoder.StopsEarly` | src/media/MicroGif.cpp:380-470 | fewer pixels than the frame has, with an end code at the width the encoder writes it, decode to themselves and no more, whatever follows |
| `LzwEncoder.FrameCutShort` | src/media/MicroGif.cpp:380-493 | and packed and cut into sub-blocks they leave the rest of the frame at the fill index |
| `LzwEncoder.EveryImageHasAStream` | src/media/MicroGif.cpp:380-470 | packing into bytes gives such a stream for every image |
| `Bits.PackUnpack` | src/media/MicroGif.cpp:418-427 | bits packed low bit first come back from the bytes as a prefix |
| `LzwTables.TextFits` | src/media/MicroGif.cpp:48-55 | while the frame is not full no string outgrows the pixels so far plus one, nor the 4096 codes |
| `LzwTables.BoundedKept` | src/media/MicroGif.cpp:457-468 | every legal code keeps that bound on the dictionary |
| `LzwTables.SlotFree` | src/media/MicroGif.cpp:48-54 | the table sized to the frame has a free slot whenever the format's has |
| `LzwTables.LinkedStrings` | src/media/MicroGif.cpp:447-451 | a prefix chain strictly descends and spells its entry's string |
| `LzwTables.LinkedGrows` | src/media/MicroGif.cpp:457-460 | writing one more entry keeps every string and adds the new one |
| `GifDecoder.MicroGif.NextByte` | src/media/MicroGif.cpp:396-415 | pulls exactly the next byte of the chain's payload across block borders, and never changes where the chain ends |
| `GifDecoder.MicroGif.PullBits` | src/media/MicroGif.cpp:418-423 | the buffer and what is still to come stay the same bits in the same order; it fails only when the stream is too short |
| `GifDecoder.MicroGif.Unwind` | src/media/MicroGif.cpp:447-455 | following the links of a known code spells its string backwards; no guard on slots or stack fires |
| `GifDecoder.MicroGif.Expand` | src/media/MicroGif.cpp:438-455 | refuses exactly the codes the reference refuses, and otherwise stacks the code's string |
| `GifDecoder.MicroGif.Pop` | src/media/MicroGif.cpp:468 | puts the stacked pixels out in order and drops those beyond the frame |
| `GifDecoder.MicroGif.TakeCode` | src/media/MicroGif.cpp:436-468 | one code leaves tables, width and output standing for the reference's next state |
| `GifDecoder.MicroGif.LzwDecode` | src/media/MicroGif.cpp:380-493 | on every byte string: same verdict and same indices as the reference with a full dictionary, and the position where stepping over the whole chain would be |
| `Interlace.InterlacedRow` | src/media/MicroGif.cpp:24-33 | the row counted off through the passes is the r-th of the four-pass order of GIF89a, Appendix E |
| `Interlace.StoredOrderIsPermutation` | src/media/MicroGif.cpp:24-33 | for every height the order is a permutation, with an explicit inverse: each row is drawn from exactly one decoded row |
| `GifDecoder.MicroGif.Begin` | src/media/MicroGif.cpp:152-195 | loads exactly the headers the format and the limits allow, starts rewound, and has given back restore buffer and workspace claim; the heap has their bytes |
| `GifDecoder.MicroGif.Rewind` | src/media/MicroGif.cpp:197-205 | goes back to the first frame with nothing pending and keeps the restore buffer's capacity |
| `GifDecoder.MicroGif.SkipSubBlocks` | src/media/MicroGif.cpp:142-150 | succeeds exactly on complete chains and ends behind them |
| `GifDecoder.MicroGif.ParseGce` | src/media/MicroGif.cpp:250-265 | reads a graphic control extension (section 23 of GIF89a) exactly when it is complete |
| `Gif.ParseControl` | src/media/MicroGif.cpp:250-265 | the disposal method is one of four, and the position is behind the extension's whole chain |
| `Gif.SkipEnd` | src/media/MicroGif.cpp:142-150 | a complete chain ends where the forgiving reader of the decoder stops; a cut-off one takes it to the end of the data |
| `GifDecoder.MicroGif.CountFrames` | src/media/MicroGif.cpp:207-246 | the number of structurally valid descriptors, stopping at exactly one more than the limit; nothing is counted before a GIF is loaded |
| `GifDecoder.MicroGif.ScanDescriptor` | src/media/MicroGif.cpp:226-239 | the counting parser and the decoding parser accept the same descriptors and agree where they end |
| `GifDecoder.MicroGif.ReadDescriptor` | src/media/MicroGif.cpp:303-322 | reads the descriptor, local colour table and code size, or fails on the same inputs |
| `GifDecoder.MicroGif.Reserve` | src/media/MicroGif.cpp:333-335 | room for the new snapshot is made before anything is drawn, and the old snapshot stays readable |
| `GifDecoder.MicroGif.DisposePrevious` | src/media/MicroGif.cpp:337-349 | undoes the frame before exactly as its disposal method says |
| `GifDecoder.MicroGif.SaveGround` | src/media/MicroGif.cpp:351-357 | the restore buffer holds the canvas under the visible frame, or nothing |
| `GifDecoder.MicroGif.DrawRows` | src/media/MicroGif.cpp:359-370 | the canvas afterwards is the specified one: interlaced rows in place, transparent and unknown colours leaving the ground |
| `GifDecoder.MicroGif.DecodeImage` | src/media/MicroGif.cpp:302-378 | an image is decoded and composited as specified; refused memory leaves the canvas untouched |
| `GifDecoder.MicroGif.NextFrame` | src/media/MicroGif.cpp:267-300 | every call answers as the value-level decoder does: frame and delay, clean end, error, or a refusal with position, control and canvas as they were; the workspace is claimed from the pool for exactly the image decoded, and the heap sees its block exchanged first and the restore buffer's then; an end or an error leaves canvas and restore buffer alone |
| `GifDecoder.MicroGif.ClaimAndDecode` | src/media/MicroGif.cpp:323-331 | decodes with tables carved out of the claimed words, or is refused when the pool has none |
| `GifEncoder.EveryImageIsEncoded` | src/media/MicroGif.cpp:380-493 | any rows of colour indices have a stream cut into sub-blocks, so the laws below speak of every image |
| `GifEncoder.PictureShown` | src/media/MicroGif.cpp:267-378 | a picture of any size, place, palette, row order and control, laid out in bytes with other extensions in front and anything behind, is shown by the next call: every pixel on the screen has the 24-bit colour of its table entry, red highest; where it is clear or has no entry, and everywhere else, the ground stays; pixels not sent are clear or of the background's index; delay and position are right |
| `GifEncoder.Animation` | src/media/MicroGif.cpp:267-378 | any number of pictures is shown one after the other as their disposal methods say: kept, blanked or restored |
| `GifEncoder.PicturesCounted` | src/media/MicroGif.cpp:207-246 | the count made beforehand is the number of pictures laid out |
| `GifEncoder.ScreenRead` | src/media/MicroGif.cpp:152-195 | signature, sizes, flags and colour table laid out in bytes come back, sizes clipped to the limits |
| `GifEncoder.FileShown` | src/media/MicroGif.cpp:152-378 | a whole file, from its header to the trailer: opened and run on any canvas it shows exactly its pictures, counts as many and ends |
| `GifLaws.FramesBounded` | src/media/MicroGif.cpp:207-300 | over any run of calls, up to the first end or error, no more frames are decoded than structurally valid descriptors were counted |
| `GifLaws.ImageCount` | src/media/MicroGif.cpp:472-491 | a decoded frame uses up exactly its descriptor, however early decoding stopped |
| `GifLaws.RetryIsTransparent` | src/media/MicroGif.cpp:275-281 | a call repeated after a refusal gives what the refused call would have given |
| `GifLaws.GrantedIsNeverRefused` | src/media/MicroGif.cpp:302-335 | with the memory there, a call is never refused |
| `GifLaws.RestoreIsExactUndo` | src/media/MicroGif.cpp:328-357 | disposing of a restore-to-previous frame gives back, pixel for pixel, the canvas from before it was drawn |
| `GifLaws.RestoredFrameLeavesNoTrace` | src/media/MicroGif.cpp:339-349 | a call behind a frame to be restored does what it would do on the restored canvas with nothing to dispose of |
| `GifLaws.RestoredInRun` | src/media/MicroGif.cpp:328-377 | so in a run the frame after a restored one is drawn as if the restored one had never been |
| `Canvases.Canvas.FillRect` | src/core/render/Canvas.cpp:121-124 | fills exactly the part of the rectangle on the canvas |
| `Canvases.Canvas.PutBlock` | src/media/MicroGif.cpp:339-347 | puts a saved block back row by row, clipped to the canvas |
| `Canvases.Canvas.GetBlock` | src/media/MicroGif.cpp:353-356 | reads a block out in the same order |
| `PodBuffers.NewCap` | src/media/PodBuffer.h:48-50 | old and new block together stay within three times the request; a first block within the request or 16 |
| `PodBuffers.PodBuffer.Resize` | src/media/PodBuffer.h:39-58 | succeeds exactly when the limits and the heap allow it, keeps the elements, changes nothing on failure; the peak is old plus new block |
| `PodBuffers.PodBuffer.ShrinkToFit` | src/media/PodBuffer.h:60-72 | gives spare capacity back and keeps the elements, also when the smaller block is refused |
| `PodBuffers.PodBuffer.Clear` | src/media/PodBuffer.h:74-78 | gives the whole block back |
| `PodBuffers.PodBuffer.MoveFrom` | src/media/PodBuffer.h:28-35 | takes the other's block over and leaves the other empty; a move to itself changes nothing |
| `ScratchPools.ScratchPool.Acquire` | src/media/MicroGif.cpp:114-127 | a first request enters at the head, links agree both ways; it succeeds exactly if the block is large enough or a new one is granted, the size is then at least the request, and the heap's peak never holds the old block and the new one together |
| `ScratchPools.ScratchPool.Unlink` | src/media/MicroGif.cpp:99-105 | exactly this claim leaves the list and all other links stay right |
| `ScratchPools.ScratchPool.Needed` | src/media/MicroGif.cpp:106-108 | the largest request of all claims in the list |
| `ScratchPools.ScratchPool.Release` | src/media/MicroGif.cpp:99-112 | afterwards the workspace is no larger than the largest live claim, its block no larger than that needs, and the heap has what was given back |
| `ScratchPools.ScratchPool.Destroy` | src/media/MicroGif.cpp:77 | with the last claim the workspace is empty and its block is back on the heap |
| `ScratchPools.ScratchPool.Move` | src/media/MicroGif.cpp:83-97 | the target gives up its own claim and takes the other's place in the list; a move to itself changes nothing |
| `Footprint.ScratchLayout` | src/media/MicroGif.cpp:48-62 | the four tables lie side by side in the one allocation, and five bytes a pixel suffice |
| `Footprint.ScratchFits` | src/media/MicroGif.cpp:48-62 | the decoder's own tables have the sizes of that layout and fit its words |
| `Footprint.OwnLimits` | src/media/DevicePageIcon.h:44-48 | opened with its own size as limits, a GIF's canvas is exactly that size |
| `Footprint.RestoreGrowth` | src/media/PodBuffer.h:39-58 | a restore buffer that grows was smaller than the canvas, so both blocks stay within three canvases |
| `Footprint.UpcomingIsDecoded` | src/media/MicroGif.cpp:267-335 | the image whose workspace is reserved is the one the call decodes: no other is, and without its workspace the call is refused |
| `Footprint.GifPlayer.PlayOn` | src/media/GifPlayer.cpp:193-210 | the decoder behind a call and the rewind on an end or an error, its workspace and the heap they share |
| `Footprint.AdmittedMeans` | src/media/ImageInfo.h:84-112 | a GIF is admitted exactly if its signature and size are right and its bytes, 21 a pixel and 512 more stay within the limit and 32 bits |
| `Footprint.GifPlayer.Advance` | src/media/GifPlayer.cpp:193-210 | a decoding call on the player's own objects: the bytes of everyone else on the heap are untouched, and its peak stays within the admitted cost |
| `Footprint.GifPlayer.OpenBytes` | src/media/GifPlayer.cpp:35-79 | opening with one cached frame keeps the heap's peak within the cost too, however it ends; what fails leaves the player closed |
| `Footprint.GifPlayer.ReadNative` | src/media/ImageInfo.h:116-166 | the file is read into a block of its own within the limit, and given back if it may not be shown |
| `Footprint.GifPlayer.Play` | src/media/GifPlayer.cpp:171-212 | any run of decoding calls keeps the peak within the cost |
| `Footprint.GifPlayer.ShowNative` | src/media/DevicePageIcon.h:32-50 | from reading the file over opening to any run of calls the one heap that compressed bytes, frame, delay, restore buffer and workspace share never rises above the limit the icon was admitted with; a workspace other decoders have grown before counts beside it |
| `AudioLaws.StepKeeps` | src/system/AudioOutEsp32.cpp:169-272 | every single step of either thread keeps the whole invariant |
| `AudioLaws.ScheduleKeeps` | src/system/AudioOutEsp32.cpp:169-486 | so does every schedule |
| `AudioLaws.NoRequestIsLost` | src/system/AudioOutEsp32.cpp:184-207 | in every reachable state a request not finished, stopped or superseded counts as pending or playing |
| `AudioLaws.ParkedIsSignalled` | src/system/AudioOutEsp32.cpp:243-272 | a parked title or error is signalled, or one side is in the middle of handing it over |
| `AudioLaws.OpenIsAnnounced` | src/system/AudioOutEsp32.cpp:464-484 | an open file is always the announced one |
| `AudioLaws.ReleaseReturnsReleased` | src/system/AudioOutEsp32.cpp:211-230 | a release that returns without timing out leaves no file within the path open, pending or about to be opened |
| `AudioLaws.ReleasedUntilRequested` | src/system/AudioOutEsp32.cpp:211-230 | and none is opened in any interleaving until a new request is made |
| `AudioLaws.OperationsCut` | src/system/AudioOutEsp32.cpp:184-230 | a stop, a newer request and a release of the open file each cut the playback of a request from the moment it is taken, before its first guard test too |
| `AudioLaws.CutStaysCut` | src/system/AudioOutEsp32.cpp:361-391 | once cut, from the take on, the guard is false in every state with no loop operation in flight, until the task leaves the loop |
| `AudioLaws.CutEndsPlayback` | src/system/AudioOutEsp32.cpp:377-391 | with the guard false the task is out of the loop within three moves of its own, in every interleaving: whatever the main loop does in between after a newer request, and anything but a new request after a stop |
| `AudioOperations.WithinMeans` | src/core/sound/SoundMp3.cpp:67-70 | a place holds itself and whatever is below it, written with its last separator or without |
| `AudioOperations.StopStops` | src/system/AudioOutEsp32.cpp:199-207 | a stop that has run leaves the stop flag up and nothing pending or waiting, in every schedule |
| `AudioOperations.PlayRequests` | src/system/AudioOutEsp32.cpp:169-195 | a play request that has run is one more, the stop flag is down, and its file or song waits or has become the job |
| `AudioOperations.ReleaseReleases` | src/system/AudioOutEsp32.cpp:211-230 | a release that has run without giving up leaves nothing within the place open, waiting or about to be opened |
| `AudioOperations.TickTakesOver` | src/system/AudioOutEsp32.cpp:258-272 | a tick that sees a new signal takes over what is parked, or was refused the lock and will look again |
| `AudioOperations.TaskTakes` | src/system/AudioOutEsp32.cpp:461-475 | with a request waiting and the lock free, six moves of the task make it the job, announced and counted as playing, whatever the loop does meanwhile |
| `AudioOperations.JobPlays` | src/system/AudioOutEsp32.cpp:361-367 | the job's file is opened and played, or given up with playing down if it cannot be |
| `AudioOperations.IdleIsQuiet` | src/system/AudioOutEsp32.cpp:460-486 | in every reachable state an idle task has nothing open and nothing playing; without a request nothing is pending |
| `AudioOperations.PublishParks` | src/system/AudioOutEsp32.cpp:243-255 | a title or error is parked and then signalled, once |
| `AudioOperations.OperationsEnd` | src/system/AudioOutEsp32.cpp:169-272 | with the lock free every operation but a release ends within five further moves of the loop |
| `Utf8.KeepUtf8` | src/system/Log.cpp:69-97 | the buffer afterwards holds the repaired text, terminated, no longer than before |
| `Utf8.Scan` | src/system/Log.cpp:73-90 | a lead byte's window gives a whole character, a cut-off one or a stray byte, as section 4 of RFC 3629 says |
| `Utf8.RepairedIsWellFormed` | src/system/Log.cpp:66-97 | the result is well-formed UTF-8, whatever went in |
| `Utf8.WellFormedIsKept` | src/system/Log.cpp:66-97 | well-formed text is not changed |
| `Utf8.UnchangedIffWellFormed` | src/system/Log.cpp:66-97 | and nothing else is left unchanged |
| `Utf8.RepairIsIdempotent` | src/system/Log.cpp:66-97 | repairing twice is repairing once |
| `Utf8.OnlyAnIncompleteTailGoes` | src/system/Log.cpp:81-85 | the text never grows, the only bytes dropped are one incomplete character at the very end, and every other byte stays in place as itself or as a question mark |
| `Utf8.IncompleteTailGoes` | src/system/Log.cpp:82-86 | and an incomplete character at the end always goes: what stands before it keeps its length, and if it is well-formed it is the result |
| `Utf8.RepairMeans` | src/system/Log.cpp:66-97 | the whole repair by what the text begins with: a character stays, an incomplete rest goes, any other byte is a question mark |
| `Utf8.WholeCharStays` | src/system/Log.cpp:69-97 | whatever stands before it, a whole character is kept in place, and what is behind it is repaired on its own |
| `LogRing.Fitting` | src/system/Log.cpp:36-41 | the longest suffix of all lines that fits the ring |
| `LogRing.Ring.KeepsFitting` | src/system/Log.cpp:36-51 | the lines kept are exactly those of the longest suffix that fits, over any run of stores |
| `LogRing.Ring.NextLine` | src/system/Log.cpp:32-34 | following a length byte leads to the next line's, across wrap-around |
| `LogRing.Ring.MakeRoom` | src/system/Log.cpp:38-42 | drops oldest lines only while the new one does not fit |
| `LogRing.Ring.WriteRecord` | src/system/Log.cpp:43-48 | writes the record in up to two pieces and touches no byte still shown |
| `LogRing.Ring.Store` | src/system/Log.cpp:36-51 | the ring shows the old history and the new line, numbers consecutive |
| `LogRing.Ring.Load` | src/system/Log.cpp:53-60 | gives back a line's true text across wrap-around |
| `LogRing.Ring.FirstAfter` | src/system/Log.cpp:146-152 | where the lines after a number begin, clamped to what is there |
| `LogRing.Ring.LineAt` | src/system/Log.cpp:160-170 | one lock section emits the line the reader stands on, or the oldest left if that one is gone |
| `LogRing.Ring.StreamAfter` | src/system/Log.cpp:142-176 | with stores between the lock sections: the i-th line told is the one behind the last, or the oldest of that section's ring if that one is gone by then, with that number's text; at the end nothing of the announced lines is left untold that the last section still had |
| `LogRing.SkipsOnlyEvicted` | src/system/Log.cpp:142-176 | a line asked for and not told was already evicted in the lock section that told the next one, or in the last section if none did |
| `LogRing.NumbersRise` | src/system/Log.cpp:158-171 | the numbers told strictly rise from the number asked for |
| `AppNames.LessTotal` | src/core/CoreEngine.cpp:123-133 | byte order on names is a strict total order |
| `AppHosts.AppHost.SetApps` | src/core/apps/AppHost.cpp:17-35 | the showing app stays the showing one across a change of the list that keeps it; a running transition keeps its target if that is still there and other than the showing app, and is dropped otherwise |
| `AppHosts.AppHost.SwitchTo` | src/core/apps/AppHost.cpp:115-125 | shows the app exactly if it is in the list |
| `PushedApps.FindsEntry` | src/core/CoreEngine.cpp:135-138 | the search in the sorted list finds exactly the entry of that name |
| `PushedApps.UpsertMembers` | src/core/CoreEngine.cpp:377-391 | storing an app changes that app and no other |
| `PushedApps.NeededCounts` | src/core/CoreEngine.cpp:372-374 | the places a batch needs are its entries whose names no app has |
| `PushedApps.AppliedGood` | src/core/CoreEngine.cpp:368-391 | a batch keeps the list strictly sorted with distinct arrival numbers and adds at most as many apps as it has new names |
| `PushedApps.AppliedFinds` | src/core/CoreEngine.cpp:377-391 | of a batch the last payload of a name counts; an app that was there keeps its arrival number |
| `PushedApps.ArrivalOrder` | src/core/CoreEngine.cpp:160-167 | the arrival order is a reordering of the list |
| `PushedApps.ExpiredMembers` | src/core/CoreEngine.cpp:83-101 | exactly the apps whose time is not up are as before; the others are gone or marked, and nothing else is in the list |
| `PushedApps.UnnamedMembers` | src/core/CoreEngine.cpp:398-403 | deleting a name leaves exactly the apps that have neither that name nor that array's name |
| `AppLoop.LoopMembers` | src/core/CoreEngine.cpp:275-285 | the loop has exactly the existing apps that are switched on, arranged ones in front |
| `AppLoop.KnownMembers` | src/core/CoreEngine.cpp:156-170 | the apps there are: built-ins the hardware fills, pushed apps and rotation scripts |
| `AppLoop.KnownInOrder` | src/core/CoreEngine.cpp:156-170 | built-ins no pushed app replaces come first, then pushed apps by arrival number, then scripts in their list's order |
| `AppLoop.ArrangedInOrder` | src/core/CoreEngine.cpp:278-281 | arranged apps run in the saved order |
| `AppLoop.NewcomersInOrder` | src/core/CoreEngine.cpp:282-285 | apps without a place come behind, in the order of the apps there are |
| `AppLoop.LoopNoDup` | src/core/CoreEngine.cpp:275-285 | each has one place, unless the saved order itself repeats it |
| `AppLoop.HidingTakesOneOut` | src/core/CoreEngine.cpp:462-476 | switching an app off takes it out of the loop and leaves the rest as it was |
| `AppLoop.HidingUndone` | src/core/CoreEngine.cpp:462-476 | switching it on again gives the list and the loop back, exactly if it was on before |
| `Engines.SwitchedBack` | src/core/CoreEngine.cpp:462-476 | off and on again gives the arrangement back if and only if the app was on, or is a retired name |
| `Engines.FileKeeps` | src/core/CoreEngine.cpp:234-240 | a script is in exactly one of the two lists after it is filed; all others stay |
| `Engines.Engine.Rebuild` | src/core/CoreEngine.cpp:275-298 | the display gets exactly the apps that exist, are on and draw something, in the loop's order, or the session alone; what is shown stays shown if it is still there |
| `Engines.Engine.RunningMembers` | src/core/CoreEngine.cpp:156-285 | a name runs if and only if it is not switched off and is a built-in the hardware fills, a pushed app or a rotation script |
| `Engines.Engine.RunningInOrder` | src/core/CoreEngine.cpp:156-285 | in front the saved order; behind it built-ins, pushed apps by arrival, scripts in their list's order |
| `Engines.Engine.SyncScript` | src/core/CoreEngine.cpp:234-246 | keeps the engine's invariants; a rotation script that is on and drawn is on the display unless a session has it; an on-demand script leaves the arrangement, one no longer on demand its session |
| `Engines.Engine.RemoveScript` | src/core/CoreEngine.cpp:258-271 | the script is in no list, its session is over, nothing else is lost |
| `Engines.Engine.StartSession` | src/core/CoreEngine.cpp:478-497 | only a known on-demand script gets the panel, alone; a failed launch leaves no session, and an end asked for during the launch is remembered |
| `Engines.Engine.EndSession` | src/core/CoreEngine.cpp:499-518 | hands the panel back to the app noted at the session's start, if the list still has it |
| `Engines.Engine.RequestSessionEnd` | src/core/CoreEngine.cpp:505-509 | only the session's own script can ask |
| `Engines.Engine.SetOrder` | src/core/CoreEngine.cpp:420-460 | replaces the arrangement as a whole or changes nothing; every name given keeps its place unless it is retired and no app has it; the hidden names are kept once each |
| `Engines.Engine.SetEnabled` | src/core/CoreEngine.cpp:464-476 | changes one name of the hidden list and never the order |
| `Engines.Engine.SwitchOffAndOn` | src/core/CoreEngine.cpp:462-476 | the same on the engine: exactly then arrangement and running loop are the old ones, and without a session the display rotates through it |
| `Engines.Engine.SetPushed` | src/core/CoreEngine.cpp:365-396 | a batch is applied as a whole, or refused and nothing changes, exactly when its new names exceed the free places |
| `Engines.Engine.DeletePushed` | src/core/CoreEngine.cpp:398-405 | removes an app by its name or its array's name and keeps the list sorted |
| `Engines.Engine.Tick` | src/core/CoreEngine.cpp:74-102 | ends the session that asked for it, and removes or marks exactly the apps whose time is up |
| `ScriptStores.IsSafe` | src/persistence/ScriptFiles.h:11-19 | accepts exactly the names of 1 to 64 bytes without separators, colon, NUL or two dots in a row |
| `ScriptStores.PathsApart` | src/persistence/ScriptFiles.h:21-28 | different names have different state files, and no state file is a source file |
| `ScriptStores.FreeSpace.Bytes` | src/persistence/FsFreeSpace.h:24-30 | asks only if the figure is stale, and then remembers it |
| `ScriptStores.PendingBytesExcept` | src/persistence/ScriptStore.h:141-145 | the sum of all other pending entries, in whatever order they are visited |
| `ScriptStores.ScriptStore.ReadStore` | src/persistence/ScriptStore.h:45-51 | gives the last accepted update of that name, or what a removal could not remove, or nothing |
| `ScriptStores.ScriptStore.StoreChanged` | src/persistence/ScriptStore.h:92-103 | accepts exactly when it fits or the backend keeps pending updates; what is accepted as fitting leaves 32 KiB free beside everything pending |
| `ScriptStores.ScriptStore.FlushEntry` | src/persistence/ScriptStore.h:120-131 | an entry is written only if it fits and need not wait, and leaves memory only with its complete file; a torn write leaves it |
| `ScriptStores.ScriptStore.Flush` | src/persistence/ScriptStore.h:116-133 | never changes what a reader sees; entries that go are on the disk, and one that stays has a reason of its own: it has to wait, its write was torn, or at a figure then given it did not fit; with nothing in the way all of them go |
| `ScriptStores.ScriptStore.Remove` | src/persistence/ScriptStore.h:31-39 | nothing of the name is pending or accepted any more, and it reads as what its state's file still holds, or nothing if that went; its source goes with its file; no other name changes |
| `ScriptStores.WithoutReads` | src/persistence/ScriptStore.h:31-51 | after the removal of a name's files its state reads as nothing if and only if the state file went or held nothing |
| `ScriptStores.UpdateAndRemove` | src/persistence/ScriptStore.h:31-51 | a run of the store for any name and states: with an update accepted and the script then removed, it reads as nothing if the file went or held nothing, and as before the update otherwise |
| `ScriptStores.OldStateReturns` | src/persistence/ScriptStore.h:31-51 | the run with "1" in the file, "2" accepted and a file that stays: "1" is read |
| `ScriptStores.ScriptStore.Save` | src/persistence/ScriptStore.h:20-25 | changes no state, and replaces the old source as a whole or, when anything on the way fails, not at all; no other source changes but by the flush before it |
| `ScriptStores.ScriptStore.WriteSource` | src/persistence/ScriptStore.cpp:45-52 | writing a temporary file, reading it back and renaming it replaces the source exactly if all three work, and touches no state's file |
| `ScriptStores.ScriptStore.Tick` | src/persistence/ScriptStore.h:105-114 | writes only when the interval has run out, and then flushes, each entry that stays for a reason of its own |
| `AlphaOrder.AlphaLess` | src/core/StrCase.h:40-62 | equals lexicographic order on tokens, numbers by value and characters without case, with byte order between equal token lists |
| `AlphaOrder.AlphaIsStrictTotal` | src/core/StrCase.h:38-62 | irreflexive, transitive, and of two different texts exactly one comes first |
| `AlphaOrder.CaseIgnored` | src/core/StrCase.h:55-56 | texts that differ only in letter case have equal tokens, so any text comes before both or behind both but for the bytes at the end |
| `AlphaOrder.NumbersDecide` | src/core/StrCase.h:44-53 | behind equal fronts two different numbers decide, whatever zeros lead them |
| `AlphaOrder.CharactersDecide` | src/core/StrCase.h:55-56 | behind equal fronts two characters that differ in more than case decide, by their lower-case codes |
| `AlphaOrder.CompareRuns` | src/core/StrCase.h:47-52 | comparing length and then digits compares the numbers, for runs of any length |
| `AlphaOrder.LongerIsMore` | src/core/StrCase.h:50 | without leading zeros the number with more digits is larger |
| `AlphaOrder.FirstDifference` | src/core/StrCase.h:51-52 | with as many digits the first different one decides |
| `AlphaOrder.ZerosDoNotCount` | src/core/StrCase.h:45-46 | leading zeros do not change the number |
| `TopicMatch.TopicMatches` | src/transport/MqttTopicMatch.h:10-47 | terminates and equals the level-by-level definition of section 4.7 of MQTT 3.1.1 on the levels of filter and topic |
| `TopicMatch.MatchesMeans` | src/transport/MqttTopicMatch.h:10-47 | for filters and topics given by their levels: a final # takes any rest, a + any level, and a wildcard in front no topic that begins with a dollar sign |
| `TopicMatch.SomeFilters` | src/transport/MqttTopicMatch.h:12-46 | filters as they are written: "a/#" matches "a", "+/x" does not match "$SYS/x" |
| `TopicMatch.LevelsMatchIff` | src/transport/MqttTopicMatch.h:19-46 | a filter matches as many fitting levels, or behind a final # any number of further ones, none included; a # before the end matches nothing |
| `TopicMatch.LevelsJoin` | src/transport/MqttTopicMatch.h:20-32 | the levels joined give the text back, and none contains a separator |
| `TopicMatch.JoinLevels` | src/transport/MqttTopicMatch.h:20-32 | and they are the only such list, empty levels included |
| `FontPack.PackRow` | scripts/gen_font.py:218-223 | a row's pixels as bytes, the highest first |
| `FontPack.RowBit` | scripts/gen_font.py:219-223 | every pixel of a row can be read back from its byte and bit |
| `FontPack.StoredDraws` | src/core/render/TextRenderer.cpp:134-149 | a record whose bitmap stands in the blob holds exactly the glyph's pixels |
| `FontPack.Packer.Add` | scripts/gen_font.py:207-224 | succeeds exactly for glyphs of rows up to 16 wide, at most 15 of them, and an advance of 0 to 15; the record draws the glyph, and the blob only grows |
| `FontPack.DrawsKept` | scripts/gen_font.py:195-224 | more bitmaps behind it change no glyph of this or an earlier font |
| `TextRenderer.DrawGlyph` | src/core/render/TextRenderer.cpp:134-149 | shifting bytes out bit by bit across rows sets exactly the pixels whose bits are set, and no others |
| `TextRenderer.TopBit` | src/core/render/TextRenderer.cpp:144-146 | after each shift the top bit is the next pixel's |
| `TextRenderer.DrawPacked` | src/core/render/TextRenderer.cpp:134-149 | a packed panel glyph comes out on the canvas row by row as the font had it, its first row as far above the baseline as it says |
| `TextRenderer.DrawBox` | src/core/render/TextRenderer.cpp:134-149 | so does a glyph of the matrix set, its box placed by its offsets |
| `FontTables.Narrow` | scripts/gen_font.py:230-245 | runs in order and apart by more than the gap, each beginning and ending with a carried code point and skipping no more than the gap, together covering all of them |
| `FontTables.SplitBetween` | scripts/gen_font.py:230-245 | two neighbouring code points of the font are in one run if and only if their distance is at most the gap, fewer than eight missing between them |
| `FontTables.EightMissing` | scripts/gen_font.py:230-245 | in a font with its dense span and two code points of a block, exactly eight missing between them, there are two runs |
| `FontTables.IndexRun` | scripts/gen_font.py:265-281 | every slot of a run points to the glyph wanted or says there is none; sharing changes no slot |
| `FontTables.AllRuns` | scripts/gen_font.py:263-264 | the runs of all blocks in order: everything carried in a block, nothing outside the blocks |
| `FontTables.GlyphFor` | src/core/render/TextEncoding.cpp:90-102 | the bisection finds the range that holds a code point, or that none does |
| `FontTables.PanelLookup` | scripts/gen_font.py:51-53 | a panel font's lookup, glyph by glyph: the code point's own, the space's for a no-break space it does not have, none outside the blocks |
| `FontTables.BuildFont` | scripts/gen_font.py:248-286 | refused exactly if some glyph of its table does not fit a record; every lookup gives exactly the glyph wanted, or none where there is none; fonts laid out before keep drawing what they drew |
| `FontTables.BuildPanelFont` | scripts/gen_font.py:248-286 | the same for the blocks the panel's fonts declare |
| `MatrixFonts.PackBits` | scripts/gen_matrix_fonts.py:56-59 | setting the pixels' bits one by one in a zeroed buffer gives the packed bytes |
| `MatrixFonts.PackedBit` | scripts/gen_matrix_fonts.py:56-59 | every pixel can be read back from its byte and bit, across row borders |
| `MatrixFonts.PixelAt` | scripts/gen_matrix_fonts.py:52-55 | where a pixel of a row lies in the run of bits |
| `MatrixFonts.HeldDraws` | src/core/render/TextRenderer.cpp:134-149 | a record of any width whose bytes stand in the blob draws exactly its glyph |
| `MatrixFonts.SharedBlob.Add` | scripts/gen_matrix_fonts.py:108-119 | succeeds exactly for what the renderer's record and offsets can hold; the blob only grows |
| `MatrixFonts.FillTable` | scripts/gen_matrix_fonts.py:106-124 | succeeds exactly if every glyph fits a record and the blob its offsets; every code point's slot is a record that draws its glyph, the dense span in its places, an aliased no-break space sharing the space's slot |
| `MatrixFonts.Join` | scripts/gen_matrix_fonts.py:126-131 | spans in order, apart by more than the gap, beginning and ending with a code point of the font, skipping no more than the gap inside, together holding all of them |
| `MatrixFonts.SpansBegin` | scripts/gen_matrix_fonts.py:126-131 | there are as many spans as code points with none close before them, and they begin there |
| `MatrixFonts.BuildFont` | scripts/gen_matrix_fonts.py:104-146 | accepted exactly if every glyph fits a record, the blob its offsets and the ranges a byte; then every lookup of a code point gives a record that draws its glyph, any other none |

## Left out

Stated weaker than one might wish, with the reason:

- LzwEncoder.RoundTrip: starts at code size 2, because for size 1 the property is false (`LzwEncoder.RoundTripExactly`).
- GifEncoder.PictureShown: from code size 2 as well, and with the memory granted; a refused call can be repeated (`GifLaws.RetryIsTransparent`).
- Canvases.Canvas.FillRect: the clip rectangle is taken to be the whole canvas, as it is on the canvases the player decodes to.
- ScriptStores.ScriptStore.Flush: visits the entries in any order, where the source visits them by name; what it promises holds for every order.
- ScriptStores.ScriptStore.Remove: whether the state's file can be removed is an answer given to it, and `survived` records what stayed.
- FontTables.AllRuns: the source finds a block's runs and fills their index arrays in one nest of loops; here it is two passes, since neither depends on the other.
- FontTables.GlyphFor: the number of ranges is taken to fit the renderer's byte, which the generator does not test.
- FontPack.Packer.Add: a record's place in the blob and its vertical offset are numbers of any size, as the generator tests neither against the renderer's 16 and 8 bits.
- Footprint.GifPlayer.ShowNative: for icons read from files; inline icons are not modelled. The canvas decoded on is an object of its own beside the frame buffer's block, which is its memory.
- TextRenderer.DrawGlyph: the bit counter is unbounded; the 4 and 8 bit sizes of a record keep it far below 2^16.
- LogRing.Ring.StreamAfter: the JSON around the lines is not modelled.

Of the GIF decoder and its memory:

- The bit buffer is a number: an OR of disjoint bits is a sum. It never holds more than 19 bits.
- `size_t` is 32 bits wide, as on the device. Allocation answers yes or no; a heap counts requested bytes only.
- The four LZW tables are arrays of their own, constructed only where the workspace claimed has their bytes; `Footprint.ScratchLayout` places them in it.
- Whether the heap grants a block is an answer given to each call.
- The player caches one frame, as page icons do; playback timing and larger frame caches are not modelled.
- Canvas pixels have 24 bits.
- JPEG icons, inline icons and reading files.

Of the audio hand-off:

- Sockets, the radio stream, decoding, I2S and delays; a block of playback is one step.
- Sequence numbers are unbounded, so their wrap-around after 2^32 requests is not modelled.
- `oneShotPlaying` makes two loads; the property is stated on the shared state.
- A path is empty or not; the empty path is no request.

Of the engine:

- Payloads arrive parsed: lists of names, keys, bases and specifications. Their JSON, sounds, effects and fonts are left out, and so are page contents and their inherited state.
- The script service is an environment: its answers are parameters, and a launched script may ask to end its session. It is told what runs, which is not modelled.
- The progress and looks of the display's transitions, the show gate and the rotation clock; its list, current app and a transition's target are modelled.
- The saved arrangement's file, notifications, stations and the command queue.
- Arrival numbers are unbounded.

Of the rest:

- Time stamps of log lines, formatting and the serial output; the cut at 119 bytes is the type of a line.
- File access itself; what a read, write or removal does is an answer given to the store.
- Source uploads of the Linux backend beyond their bytes and their files; its limits are answers.
- Reading BDF files, trimming glyphs and writing the C++ tables. That equal index arrays and range tables are written once changes no lookup and is not modelled.
- Settings, configuration rules, pins, sensors, network code and the browser interface: mostly table walks or device access.
