# Systemless: the code around the emulated machine

Systemless runs classic Macintosh software on the desktop and in the browser. Around the CPU and
Toolbox emulation it keeps several caches, queues and protocols whose correctness is not local to
one function. This project models them in Dafny and proves what they promise.

`dafny verify dfyconfig.toml` checks everything.

## What is modelled

**Incremental painting** (`CursorDrawing`, `CursorBackups`, `FrameRenderer`, `IndexedFrames`). The
browser renderer keeps a decoded frame, draws the cursor into it and undoes it later, and skips
painting when epoch, palette, cursor, scale and outline stamps are unchanged. `FrameRenderer.Replay`
runs any sequence of paints, packets and polls against the class and shows that every image equals
a composition from scratch, and that polls are exact. The hypothesis that outline expansion succeeds
is needed exactly (`PaintTwice`): when a surface with outline detail refuses expansion, the
unchanged-image path returns a buffer that was never filled. The screen, its decoding and the outline
expansion are parameters with laws: equal visible-image stamps decode and expand alike, decoding
fills the screen, a captured packed screen decodes to the same image, and an exported compact packet
is shown as the outline surface expands.

**3D tiles** (`TileBinning`, `ListedTiles`, `RasterTiles`, `ShaderCoverage`, `PacketOrder`). Primitives
are binned into 16 × 16 tiles so that the shader visits few of them. The flat index and the work are
proved exact on the vertices, and painting a pixel from its tile's list equals painting all primitives
in order. What the shader covers is characterised geometrically. Coordinates are reals.

**GPU messages** (`WireCodec`, `WireStreams`, `GpuMessages`, `GpuReplies`, `ComputeBridge`). A
schema-driven binary codec, proved mutually inverse; the reserved reply sizes; and the blocking
shared-memory call, as a state machine in which every shared access is its own step, so that a run is
any interleaving of both workers and of timeouts: what returns is the call's own reply, and a call that
is not interrupted does return.

**Frame and command queues** (`RendererTransports`, `CommandQueues`, `HeldInputs`, `RelayRuns`).
Callbacks of the renderer transport may re-enter it: an event carries what its callback does, nested
to any depth. Both queues and the input relay are classes proved equal to functions on values, over
which whole runs are stated. Pointer movements are coalesced, and releases wait until the guest has
seen the press.

**Crop learning** (`ContentMargins`, `CentredContent`, `CropLearning`, `CropRuns`, `CropLearners`,
`CropTheorems`). The desktop runner infers which part of the guest screen to show. The learner is a
class proved equal, frame by frame, to a step on values; a log of processed frames and of the margins
asked about gives its counters and its cache their meaning.

**Geometry and sampling** (`CursorLayouts`, `CoverageArithmetic`, `CompactAxis`, `CompactSampling`,
`CompactColours`). Native cursors are padded to a common layout; compact presentations are resolved
natively by area weights over the whole image and on the GPU by overlaps inside one cell. The two are
proved equal.

**Scripted runs** (`InputScripts`, `HeadlessRuns`), **audio queues** (`AudioQueues`) and **scratch
buffers** (`ScratchResources`) complete the picture.

## Where code and comment differ

- The margin verdict of a crop is cached for eight frames according to its comment
  (`src/bin/systemless.rs:245-249`); the code counts consultations. While a dialog is up the crop is
  not consulted, so a verdict can be any number of frames old. Before a frame is judged one can tell:
  its verdict will be eight or more frames old exactly when the cache answers (same rectangle, reuses
  left) and was filled eight or more frames ago (`CropTheorems.StaleBeforeJudging`,
  `CropRuns.StaleExactly`). `CropTheorems.StaleRun` runs the learner into it with one judged frame,
  eight with a dialog and one more; `CropTheorems.JudgeAcrossDialog` does so for any number of dialogs.
- The two audio players are not the same at the end of the queue: the native one forgets the rest of a
  step, the worklet carries it over and its phase can leave [0, 1). Over a run that happens exactly when
  some step ends a whole sample or more past the end (`PhaseStaysFractionInRun`): never at host rates of
  22050 Hz and above, whatever arrives (`SlowRunsKeepFraction`), and from some phase at every lower rate
  (`FastStepsLeaveFraction`, `WorkletPhaseEscapes`).
- When command numbers run out at 2^53 - 1 the browser queue loses the command it was about to post,
  exactly then (`CommandQueues.DrainFails`), and it gets there (`CommandQueues.LastNumberLosesCommand`).
- Switching among known cursor shapes keeps the hotspot as far as the known shapes have a common square
  within 128 pixels; without one each is shown in its own layout (`CursorLayouts.SwitchAmongKnown`).

## Assumptions

- The mouse, tick and screen sizes are unbounded integers where the code checks their range first;
  32-bit wrap-around, saturation and truncation are written out where they are observable.
- A packed screen that is as long as its mode demands holds the visible screen memory, and a compact
  packet the exporter accepts is shown as the outline surface expands (`FrameRenderer.Exporting`).
- `postMessage` delivers in order and, outside the renderer transport, does not throw.
- Shader arithmetic on whole numbers below 2^24 is exact.
- A guest advances by executing instructions one at a time: at least one unless it stops, at most as
  many as asked for, and never past a stop.

## Model

| member | source | states |
|---|---|---|
| CursorDrawing.RenderCursor | src/systems/macintosh/display.rs:1126-1340 | drawing the cursor in place, cell by cell, gives exactly the frame in which every pixel under the clipped cursor follows the Macintosh rule and every other pixel is kept |
| CursorDrawing.DrawStaysInFootprint | src/systems/macintosh/display.rs:1126-1208 | drawing changes nothing outside the clipped footprint |
| CursorDrawing.EmptyFootprintDrawsNothing | src/systems/macintosh/display.rs:1126-1208 | a cursor wholly off the frame draws nothing |
| CursorDrawing.CellIsDrawnAt | src/systems/macintosh/display.rs:1163-1207 | a cell of the cursor is drawn as many rows and columns from the mouse as it lies from the hotspot |
| CursorDrawing.FootprintIsExact | www/src/emulator.rs:114-140 | the clipped footprint covers exactly the frame positions under the cursor's cells |
| CursorDrawing.OuterBits | src/systems/macintosh/display.rs:1176-1187 | the columns of a row run from the highest bit of its first byte to the lowest of its second |
| CursorBackups.UndoRecoversFrame | www/src/emulator.rs:96-207 | pasting the saved pixels back recovers the frame from before, for any change confined to the footprint |
| CursorBackups.CursorBackup.CaptureMono | www/src/emulator.rs:114-172 | saves exactly the pixels under the clipped footprint, row by row |
| CursorBackups.CursorBackup.Restore | www/src/emulator.rs:174-207 | the frame becomes the one with the saved pixels pasted back, and nothing stays saved |
| CursorBackups.CursorBackup.Discard | www/src/emulator.rs:108-112 | forgets the saved pixels without touching a frame |
| FrameRenderer.Replay | www/src/emulator.rs:769-1230 | in every run of paints, packets, polls, scale and cursor changes: each paint shows the from-scratch composition of its own scene; each packet is sent exactly when the scene fits one and shows the composition; each poll answers "no change" exactly when the scene agrees, on all that is compared, with the one shown or sent last, and then the image held is its composition (outline expansion succeeding) |
| FrameRenderer.Step | www/src/emulator.rs:949-1230 | one event keeps the renderer valid and owes the same |
| FrameRenderer.PaintTwice | www/src/emulator.rs:1083-1105 | the hypothesis on outline expansion is exact: repainting an unchanged scene shows its composition if and only if the surface expands it; a refusing surface shows the retained buffer instead |
| FrameRenderer.Renderer.RenderRgba | www/src/emulator.rs:1057-1230 | one paint: the composition from scratch, whether by the unchanged-image path, the cursor drawn in the retained frame, the overlay or the outline |
| FrameRenderer.Renderer.RetainedImage | www/src/emulator.rs:1083-1105 | the buffer the unchanged-image path returns holds the composition of the scene |
| FrameRenderer.Renderer.RefreshFrame | www/src/emulator.rs:1108-1136 | after undoing the cursor and decoding when needed, the retained frame is the decoded screen |
| FrameRenderer.Renderer.ComposeImage | www/src/emulator.rs:1137-1211 | overlays, the in-frame cursor and the outline together give the composition, and the retaining buffer holds it |
| FrameRenderer.Renderer.RecordStamps | www/src/emulator.rs:1212-1227 | the recorded stamps name the scene shown; a debug panel is never retained |
| FrameRenderer.Renderer.HasUnpaintedVisualChange | www/src/emulator.rs:769-785 | with a stamp, "no" exactly when the scene agrees with the scene shown last in epoch, mode, colours, cursor, outline and scale, and then the delivered image is its composition; without one, the fallback |
| FrameRenderer.Renderer.RecordOwnedPresentation | www/src/emulator.rs:1035-1055 | recording a packet whose image is the composition of its scene keeps every stamp truthful and names that scene |
| FrameRenderer.Renderer.RenderIndexed | www/src/emulator.rs:949-977 | sent exactly without outline detail, in a mode within the limits, with a whole packed screen and a small enough cursor patch; what the presenter shows of it is the composition of the scene |
| FrameRenderer.Renderer.RenderCompact | www/src/emulator.rs:979-1033 | sent exactly with outline detail, within each size limit, and when the exporter accepts the overlay differences; what the presenter shows of it is the composition of the scene; a refusal changes nothing |
| FrameRenderer.Renderer.CaptureIndexed | www/src/indexed_frame.rs:28-122 | the packed screen with its cursor patch, as the presenter decodes and overlays it, is the composition of the scene |
| FrameRenderer.MatchesExactly | www/src/emulator.rs:774-784 | the stored stamps match a scene exactly when it agrees with the scene shown last on everything compared |
| FrameRenderer.Renderer.DrawCursorInFrame | www/src/emulator.rs:1138-1160 | the cursor is drawn into the retained frame and stays undoable |
| FrameRenderer.MatchIsShown | www/src/emulator.rs:1088-1097 | a scene whose stamps match is shown by the image already delivered |
| FrameRenderer.SameInputsSameImage | www/src/emulator.rs:1057-1230 | equal stamps, colours, cursor and mode compose to equal images |
| FrameRenderer.PanelOverCursor | www/src/emulator.rs:1138-1180 | without outline detail the image with a debug panel is the panel drawn over the image without it, and that is the decoded screen with the cursor drawn on it |
| FrameRenderer.ExpandedOverlays | www/src/emulator.rs:1181-1211 | with outline detail the surface expands the screen with the same overlays, or, refusing, the overlaid screen is shown |
| IndexedFrames.PatchCommutesWithDrawing | www/src/indexed_frame.rs:66-122 | overlaying the cursor patch, drawn with the mouse moved by the patch origin, equals drawing on the whole frame, for any rule, position and clipping |
| IndexedFrames.IndexedFrame.Prepare | www/src/indexed_frame.rs:50-122 | when it succeeds the patched screen is the whole decoded screen with the cursor drawn on it; it refuses exactly malformed screens and oversized or out-of-range cursors |
| IndexedFrames.IndexedFrame.CutPatch | www/src/indexed_frame.rs:80-112 | the patch is the decoded screen under the clipped footprint |
| IndexedFrames.PaletteColour | www/src/indexed_frame.rs:58-66 | a pixel has the red, green, blue and alpha of the palette word its byte names, rows being one stride apart |
| TileBinning.BoundsAreConservative | src/gpu_compute/qd3d.rs:599-621 | every pixel the shader paints lies inside the clipped bounds of its primitive |
| TileBinning.TriangleWithinCorners | src/gpu_compute/qd3d.wgsl:109-113 | the shader's edge test covers no point strictly to one side of all corners |
| TileBinning.LineWithinEnds | src/gpu_compute/qd3d.wgsl:120-136 | closed-form line coverage stays between the end points |
| TileBinning.AdvanceWithinMinor | src/gpu_compute/qd3d.wgsl:131-131 | the minor advance never passes the minor distance and does not wrap 32 bits |
| ShaderCoverage.TriangleIsHull | src/gpu_compute/qd3d.wgsl:109-113 | the shader's edge test covers exactly the points that are mixtures of the three corners, whichever way round they are given |
| ShaderCoverage.LineIsNearest | src/gpu_compute/qd3d.wgsl:120-136 | a covered cell is within half a cell of the line, measured along the minor axis |
| ShaderCoverage.LineHasEnds | src/gpu_compute/qd3d.wgsl:120-136 | both ends of a line are covered |
| ShaderCoverage.FlatLineIsUnbroken | src/gpu_compute/qd3d.wgsl:120-136 | each column between the ends of a flat line has exactly one covered cell |
| ShaderCoverage.SteepLineIsUnbroken | src/gpu_compute/qd3d.wgsl:120-136 | each row between the ends of a steep line has exactly one covered cell |
| TileBinning.VisitedIsMet | src/gpu_compute/qd3d.rs:644-645 | the tile ranges visited are exactly the tiles the bounds meet |
| TileBinning.TileListIsExact | src/gpu_compute/qd3d.rs:623-669 | a tile's list holds exactly the primitives whose bounds meet it, once each, in drawing order |
| TileBinning.SkippingIdlePrimitives | src/gpu_compute/qd3d.rs:405-414 | leaving out primitives that do not change a pixel changes nothing |
| TileBinning.TileListPaintsSame | src/gpu_compute/qd3d.rs:405-414 | folding a tile's list at any of its pixels gives the same as folding all primitives, for any depth test and blending |
| ListedTiles.BoundsAreExact | src/gpu_compute/qd3d.rs:599-621 | the clipped bounds hold exactly the frame pixels (x, y) with floor(min) <= x <= ceil(max) over the corners, and likewise y |
| ListedTiles.MetIsTouched | src/gpu_compute/qd3d.rs:644-645 | a tile is met exactly when it holds such a pixel of the frame |
| ListedTiles.TileListTouches | src/gpu_compute/qd3d.rs:623-669 | a tile's list, on the vertices: exactly the primitives with such a pixel in the tile, in drawing order |
| ListedTiles.EntriesAreTiles | src/gpu_compute/qd3d.rs:644-650 | a primitive has one entry for each tile of the frame that holds such a pixel |
| ListedTiles.WorkIsPixels | src/gpu_compute/qd3d.rs:651-657 | the raster work of a primitive is the number of frame pixels in the tiles that list it, times one more than its lights |
| ListedTiles.FitsIsAffordable | src/gpu_compute/qd3d.rs:623-661 | so storage and work of a frame are sums over its primitives of entries and of such pixels |
| RasterTiles.Rasterize | src/gpu_compute/qd3d.rs:623-669 | succeeds exactly when two words for each tile and one for each listed primitive fit the storage and the frame pixels of the listed tiles, times one more than the lights, fit the work; each tile's two words then name the list of exactly the primitives that touch one of its frame pixels, in drawing order, and the words fit the limit |
| RasterTiles.BinAll | src/gpu_compute/qd3d.rs:638-661 | binning in order stops at the first primitive that exceeds the device |
| RasterTiles.BinPrimitive | src/gpu_compute/qd3d.rs:638-661 | one primitive is appended to exactly the tiles its bounds meet; the running entries and work are exact |
| RasterTiles.BinBlock | src/gpu_compute/qd3d.rs:644-660 | the nested tile loops over a nonempty block |
| RasterTiles.BinRow | src/gpu_compute/qd3d.rs:645-659 | the inner loop over one row of tiles |
| RasterTiles.Flatten | src/gpu_compute/qd3d.rs:662-668 | headers of offset and length point past the headers to each tile's list; offsets never wrap |
| RasterTiles.EntryWritten | src/gpu_compute/qd3d.rs:663-667 | writing one header and appending its list keeps the earlier entries |
| RasterTiles.ShaderPaintsWholeList | src/gpu_compute/qd3d.wgsl:100-104 | from flat index to image: what the shader paints at a pixel equals painting every primitive in order |
| PacketOrder.Emit | src/gpu_compute/qd3d.rs:382-411 | every packet once: opaque packets first in submission order, then blended ones by falling depth, those of one depth in submission order |
| PacketOrder.SortYieldsOrder | src/gpu_compute/qd3d.rs:408-408 | the stable sort on descending depth yields the precedence order |
| PacketOrder.OrderIsUnique | src/gpu_compute/qd3d.rs:382-411 | the emitted order is the only one that respects precedence |
| WireCodec.DecodeEncode | www/src/gpu_wire.rs:62-240 | decoding undoes encoding for every value of every schema, whatever follows |
| WireCodec.EncodeDecode | www/src/gpu_wire.rs:62-240 | whatever decodes re-encodes to exactly the bytes consumed: one encoding per value |
| WireCodec.GuardAdmitsHonest | www/src/gpu_wire.rs:149-168 | the sequence-length guard never refuses an honest message |
| WireCodec.GuardBoundsReservation | www/src/gpu_wire.rs:157-163 | the guard never reserves more elements than bytes remain |
| WireCodec.MinBytesIsLowerBound | www/src/gpu_wire.rs:62-208 | no encoding is shorter than its declared MIN_BYTES |
| WireCodec.FromToLe | www/src/gpu_wire.rs:69-82 | little-endian numbers round-trip |
| WireCodec.ToFromLe | www/src/gpu_wire.rs:69-82 | little-endian bytes are canonical |
| WireCodec.LeSplits | www/src/gpu_wire.rs:69-82 | the first byte counts once and each next one 256 times as much as the one before |
| WireCodec.NumberBytes | www/src/gpu_wire.rs:69-106 | the bytes of numbers: little-endian, eight for a usize, two's complement when signed, one for a flag |
| WireCodec.FieldBytes | www/src/gpu_wire.rs:108-147 | presence is one byte, and fields and array elements follow each other |
| WireCodec.CountedBytes | www/src/gpu_wire.rs:149-178 | sequences and text have a count of four bytes before them |
| WireCodec.CaseBytes | www/src/gpu_wire.rs:372-456 | one byte tells the case of a variant, and its fields follow |
| WireStreams.Output.Put | www/src/gpu_wire.rs:65-240 | appends exactly the encoding of the value |
| WireStreams.Reader.TakeBytes | www/src/gpu_wire.rs:40-47 | returns the next bytes and moves past them, or fails and stays |
| WireStreams.Reader.Finish | www/src/gpu_wire.rs:53-60 | succeeds exactly when nothing is left |
| WireStreams.Reader.GetValue | www/src/gpu_wire.rs:66-240 | the reader's value and new position are those of the decoding function |
| WireStreams.Reader.GetMany | www/src/gpu_wire.rs:157-168 | the element loop reads exactly the declared number or fails |
| GpuMessages.RequestRoundTrip | www/src/gpu_wire.rs:499-560 | every request survives encoding and decoding |
| GpuMessages.RequestIsCanonical | www/src/gpu_wire.rs:536-560 | bytes that decode as a request re-encode to themselves: strict tags and booleans, nothing trailing |
| GpuMessages.CurrentLayouts | www/src/gpu_wire.rs:242-456 | the struct layouts of this protocol version are well formed, so both directions apply to them |
| GpuReplies.Truncate | www/src/gpu_wire.rs:610-622 | the cutting loop ends at the last character boundary within the bound |
| GpuReplies.TruncationIsTight | www/src/gpu_wire.rs:610-622 | truncated failure text is valid UTF-8 (section 3 of RFC 3629), a prefix, within the bound, and drops less than one character more than needed |
| GpuReplies.BoundaryNearby | www/src/gpu_wire.rs:615-619 | a character boundary is never more than three bytes back |
| GpuReplies.ReplyRoundTrip | www/src/gpu_wire.rs:591-660 | a success arrives unchanged, a failure with its text cut as above |
| GpuReplies.ReplyLength | www/src/gpu_wire.rs:591-625 | the exact length of an encoded reply |
| GpuReplies.HonestReplyFits | www/src/gpu_wire.rs:562-582 | every reply of the shape a request's kernel returns encodes within the reserved capacity |
| GpuReplies.CapacityIsExact | www/src/gpu_wire.rs:562-582 | the reserved capacity is exactly sixteen bytes more than the elements of the reply or 4096, whichever is more: saturating step by step is saturating once |
| GpuReplies.PixelCountIsArea | src/systems/macintosh/quickdraw/gpu.rs:99-106 | a shape has pixels exactly when both sides are positive and nothing overflows, and then as many as its area |
| GpuReplies.CountsInFields | www/src/gpu_wire.rs:562-582 | which fields of a request tell the size of its reply |
| ComputeBridge.ReplyCapacityIsLeast | www/src/gpu-compute-bridge.js:29-33 | the reply buffer is the least doubling of 64 KiB that holds the reply |
| ComputeBridge.ComputeReplyCapacity | www/src/gpu-compute-bridge.js:29-33 | the doubling loop computes it |
| ComputeBridge.SequenceAdvances | www/src/gpu-compute-bridge.js:66-76 | a new sequence differs from the published one, even across the 32-bit wrap, and is never zero |
| ComputeBridge.StepKeepsInv | www/src/gpu-compute-bridge.js:54-136 | every step of either worker, and every timeout, keeps the protocol invariant |
| ComputeBridge.RunKeepsInv | www/src/gpu-compute-bridge.js:54-136 | so every state of every interleaving satisfies it |
| ComputeBridge.ReturnsOwnReply | www/src/gpu-compute-bridge.js:66-104 | a call that returns yields exactly the bytes executed for its own request |
| ComputeBridge.LateReplyNeverRead | www/src/gpu-compute-bridge.js:58-64 | after a failure nothing the worker still does is ever returned |
| ComputeBridge.MatchedMeansPublished | www/src/gpu-compute-bridge.js:78-100 | when the caller sees its sequence, length and status are those of its own reply |
| ComputeBridge.ReplyWithinCapacityReturns | www/src/gpu-compute-bridge.js:109-135 | a computed reply within the capacity is returned |
| ComputeBridge.CallReturns | www/src/gpu-compute-bridge.js:66-136 | from every reachable state that is ready, idle and not failed, every call with a capacity in range whose result fits it returns: the run of both workers without interruption is possible step by step and ends idle, not failed, with exactly that result returned |
| ComputeBridge.CallFails | www/src/gpu-compute-bridge.js:78-136 | and the run in which the kernel has no result ends with the link failed and nothing returned |
| RendererTransports.Transport.Drive | www/src/renderer-transport.js:7-109 | every run, with whatever callbacks do from inside: the k-th answer taken names the k-th frame posted, so that at most one frame posted lacks its own answer; the frames accepted are those whose senders were told yes, in order, followed by the one whose own posting threw, if any; at most one frame is in flight, a newest pending frame only behind it, sequences increase, and unless the owner closed the transport its closing handed back the newest unsent frame |
| RendererTransports.Transport.SubmitPacket | www/src/renderer-transport.js:21-44 | true exactly when the transport is open, the frame is well formed and newer, and it is either posted or left waiting; a bad or old frame closes the transport and hands back the pending frame |
| RendererTransports.Transport.Send | www/src/renderer-transport.js:45-59 | posting takes the credit; a throw closes the transport and hands the frame back if its memory is still owned |
| RendererTransports.Transport.ReceiveMessage | www/src/renderer-transport.js:60-86 | foreign messages, and answers that name another sequence than the one in flight, change nothing and offer nothing; an error or another protocol closes and hands back the pending frame; an answer frees the credit, sends the pending frame, then notifies |
| RendererTransports.StaleChangesNothing | www/src/renderer-transport.js:71-72 | a message of ours that is no error and does not name the sequence in flight changes nothing and makes no offers |
| RendererTransports.AnswerFreesCredit | www/src/renderer-transport.js:71-82 | the answer to the frame in flight is recorded and frees the credit for the pending frame |
| RendererTransports.Transport.Settle | www/src/renderer-transport.js:72-82 | the freed credit carries the newest accepted frame |
| RendererTransports.Transport.Fail | www/src/renderer-transport.js:97-102 | closes first; what a failure hands back is the frame that was pending |
| RendererTransports.Transport.Recycle | www/src/renderer-transport.js:88-90 | each returned buffer is kept if it holds memory, is not kept yet and fewer than two are |
| RendererTransports.Transport.Take | www/src/renderer-transport.js:92-95 | hands out the first buffer of exactly the size asked for, which leaves the pool |
| RendererTransports.SubmissionOutcome | www/src/renderer-transport.js:21-59 | what became of a submitted frame: posted, left waiting in place of the pending one, or refused, which closes the transport with the exact frame handed back |
| RendererTransports.DrivenIsValid | www/src/renderer-transport.js:7-109 | every state of every run, callbacks included, is valid |
| RendererTransports.DrivenAccounts | www/src/renderer-transport.js:21-44 | the accepted frames are the offers answered yes, in order, and the one thrown at once |
| RendererTransports.ClosedRefuses | www/src/renderer-transport.js:22-22 | once closed nothing changes and every offer is refused |
| RendererTransports.RecycledExactly | www/src/renderer-transport.js:88-90 | kept buffers stay, are nonempty and distinct; a returned buffer with memory is kept unless two are |
| RendererTransports.TakenExactly | www/src/renderer-transport.js:92-95 | a buffer of exactly that size from the pool and no longer in it, or none has the size |
| CommandQueues.RunQueue | www/src/browser_bridge.rs:221-267 | in every run each sender is told what the queue of the earlier events says, and what is posted and still waits means exactly the commands accepted: same keys, buttons and saves, once each, in order, at the same pointer positions; nothing follows a shutdown; no two neighbouring waiting commands are movements; at most eight are in flight, and some wait only behind exactly eight |
| CommandQueues.CommandQueue.Post | www/src/browser_bridge.rs:244-261 | the state and the answer are those of the queue on values: stale generation, shutting down, full, or accepted and drained |
| CommandQueues.CommandQueue.Acknowledge | www/src/browser_bridge.rs:263-267 | a number in flight is freed and the queue drained; any other acknowledgement changes nothing |
| CommandQueues.CommandQueue.Drain | www/src/browser_bridge.rs:228-242 | posts from the front while fewer than eight are in flight, each under the next number; a command is lost exactly when numbers run out |
| CommandQueues.CommandQueue.Enqueue | www/src/browser_bridge.rs:252-259 | a movement behind a waiting movement replaces it and is never refused; any other command is appended, or refused exactly when 256 wait and it does not shut down |
| CommandQueues.RefusalCauses | www/src/browser_bridge.rs:244-261 | in every run, each refusal exactly when its cause holds: another generation; an accepted shutdown; or 256 waiting and a command that does not shut down and is not a movement behind a movement |
| CommandQueues.PostOutcome | www/src/browser_bridge.rs:244-261 | what is told to a sender, and what becomes of its command, case by case |
| CommandQueues.ApartIsCollapsed | www/src/browser_bridge.rs:252-255 | waiting commands without neighbouring movements are their own collapsed form |
| CommandQueues.AcknowledgedExactly | www/src/browser_bridge.rs:263-267 | the number is in flight no more, and the freed credit posts the next waiting command under a new number |
| CommandQueues.DrainedExactly | www/src/browser_bridge.rs:228-242 | as many commands leave as there is credit, in order, each under its own number |
| CommandQueues.DrainFails | www/src/browser_bridge.rs:228-242 | draining loses a command exactly when the credit needs more numbers than are left below 2^53 |
| CommandQueues.LastNumberLosesCommand | www/src/browser_bridge.rs:228-242 | the losing state is reached: after 2^53 - 1 acknowledged actions nothing waits, nothing is in flight, and whatever is posted next is taken into the queue and lost |
| CommandQueues.CollapseKeepsOutcome | www/src/browser_bridge.rs:221-227 | dropping a movement before a later movement changes no machine's outcome |
| CommandQueues.CollapseKeepsActions | www/src/browser_bridge.rs:221-227 | nor any key, button or save command |
| CommandQueues.SameCollapseSameMeaning | www/src/browser_bridge.rs:221-227 | streams with one collapsed form do the same to every machine |
| AudioQueues.NativeQueue.QueueSamples | www/src/emulator.rs:3092-3099 | the content becomes the newest `max` samples of the old and the new; the phase restarts exactly on overflow |
| AudioQueues.NativeQueue.Trim | www/src/emulator.rs:3160-3177 | drops exactly the oldest overflow |
| AudioQueues.NativeQueue.Advance | www/src/emulator.rs:3147-3158 | drops exactly the oldest sample; the counter stays the remaining length |
| AudioQueues.NativeQueue.NextSample | www/src/emulator.rs:3115-3145 | the audible value, and one step of the playback on the flat sequence |
| AudioQueues.NativeQueue.Render | www/src/emulator.rs:3105-3113 | the output of a block, and the queue after it, are those of the flat sequence |
| AudioQueues.WorkletQueue.EnqueueChunk | www/assets/audio-worklet.js:47-55 | the content becomes the newest `max` samples of the old and the new |
| AudioQueues.WorkletQueue.TrimQueue | www/assets/audio-worklet.js:87-102 | drops exactly the oldest overflow |
| AudioQueues.WorkletQueue.CompactQueue | www/assets/audio-worklet.js:104-113 | forgetting consumed chunks changes no sample |
| AudioQueues.WorkletQueue.Advance | www/assets/audio-worklet.js:144-151 | drops exactly the oldest sample |
| AudioQueues.WorkletQueue.Process | www/assets/audio-worklet.js:126-158 | the output of a block, and the queue after it, are those of the flat sequence |
| AudioQueues.SettleOne | www/assets/audio-worklet.js:143-157 | consuming sample by sample is dividing the phase by one |
| AudioQueues.PlayingResamples | www/src/emulator.rs:3115-3145 | in closed form: the k-th value heard is the one at k steps from the phase, held below rate one and on the line between two samples from rate one up, and silence past the end |
| AudioQueues.SameOutputUntilRefill | www/src/emulator.rs:3115-3145 | from one state, and until samples arrive, both players give the same output |
| AudioQueues.PlayersAgree | www/assets/audio-worklet.js:152-156 | one step differs between them exactly when it overruns the queue |
| AudioQueues.PhaseStaysFraction | www/assets/audio-worklet.js:143-157 | the native phase stays a fraction; the worklet's exactly when it does not overrun by a whole sample |
| AudioQueues.SameStateUntilPassed | www/assets/audio-worklet.js:143-157 | after any number of steps the players are in one state exactly when no step went past the end of the queue |
| AudioQueues.PhaseStaysFractionInRun | www/assets/audio-worklet.js:143-157 | after any number of steps the native phase is a fraction; the worklet's exactly when no step ended a whole sample or more past the end |
| AudioQueues.SlowStepsKeepFraction | www/assets/audio-worklet.js:120-157 | until samples arrive, a step of one at most keeps the worklet's phase a fraction |
| AudioQueues.SlowRunsKeepFraction | www/assets/audio-worklet.js:47-157 | at host rates of 22050 Hz and above the worklet's phase is a fraction in every run of chunks arriving, queues cleared and blocks played |
| AudioQueues.RunWorklet | www/assets/audio-worklet.js:47-157 | the worklet in every such run: what the host hears and what is left are those of the flat sequence |
| AudioQueues.FastStepsLeaveFraction | www/assets/audio-worklet.js:120-157 | at every lower host rate there is a phase from which the last sample makes it leave |
| AudioQueues.WorkletPhaseEscapes | www/assets/audio-worklet.js:120-157 | from the first sample on a device at 8000 Hz the phase becomes 1.75625 |
| ContentMargins.HasInactiveMargins | src/bin/systemless.rs:2896-2958 | true exactly for the full screen, or when some one value fills more than nine tenths of the pixels outside the crop |
| ContentMargins.HistogramIsExact | src/bin/systemless.rs:2934-2952 | the three loops count every pixel outside the crop exactly once |
| ContentMargins.MarginSize | src/bin/systemless.rs:2934-2952 | the total is the screen area without the crop area |
| ContentMargins.CountMargin | src/bin/systemless.rs:2934-2952 | the loops fill the histogram and the total with the margin |
| ContentMargins.Greatest | src/bin/systemless.rs:2954-2954 | the dominant count is the greatest of the histogram |
| ContentMargins.VerdictMeaning | src/bin/systemless.rs:2954-2957 | the comparison with the dominant count means that some value dominates |
| CentredContent.DetectCentred | src/bin/systemless.rs:2818-2889 | finds the centred picture exactly when there is one |
| CentredContent.DetectedIsUnique | src/bin/systemless.rs:2818-2889 | there is never a choice of picture |
| CentredContent.FindPicture | src/bin/systemless.rs:2841-2866 | first and last rows, then columns, with enough foreground: only lines below the threshold are left out |
| CentredContent.Background | src/bin/systemless.rs:2828-2838 | the colour of at least three corners, if there is one |
| CentredContent.HasContent | src/bin/systemless.rs:2840-2847 | counting no further than the threshold decides whether enough pixels differ |
| CropTheorems.FallBackExactly | src/bin/systemless.rs:1790-1804 | in every run the learner gives up its crop for the whole screen exactly at the fifth frame in a row on which the guest drew outside it, each by a histogram of that crop's margins at most seven consultations old |
| CropTheorems.RelearnExactly | src/bin/systemless.rs:1876-1929 | in every run, learning again shows the whole screen and ends exactly when some rectangle has been detected on 120 frames in a row; that rectangle is taken, and each of those frames gave evidence for it |
| CropTheorems.FirstCropExactly | src/bin/systemless.rs:1807-1929 | in every run, a first crop is the guest's own rectangle or the one whose confirmations have reached five, and there is none before |
| CropTheorems.CropOnScreen | src/bin/systemless.rs:1738-1950 | in every run an accepted crop lies on the current screen |
| CropTheorems.StaleBeforeJudging | src/bin/systemless.rs:1765-1794 | known before a frame is judged: its verdict will be eight or more frames old exactly when the cache answers and was filled that many frames ago |
| CropTheorems.JudgeAcrossDialog | src/bin/systemless.rs:1770-1794 | the learner on a judged frame, any number of frames with a dialog and a judged frame: the last is judged by the first one's histogram |
| CropTheorems.StaleRun | src/bin/systemless.rs:1770-1794 | one judged frame, eight with a dialog, one judged frame: active margins go unnoticed by a verdict nine frames old |
| CropLearners.CropLearner.Process | src/bin/systemless.rs:1738-1950 | one captured frame: the learner's whole state, and the margins asked about, become those of the step on values |
| CropRuns.StepIsSound | src/bin/systemless.rs:1765-1950 | every frame keeps the counters equal to the runs they stand for, and the crop changes only as those runs allow |
| CropRuns.FallBackStep | src/bin/systemless.rs:1790-1804 | the fifth active verdict in a row falls back to the whole screen and starts learning again |
| CropRuns.RelearnStep | src/bin/systemless.rs:1876-1900 | while learning again the counter is the number of frames in a row showing the candidate |
| CropRuns.FirstStep | src/bin/systemless.rs:1876-1900 | before a first crop the counter is the candidate's confirmations in a row |
| CropRuns.RunIsStretch | src/bin/systemless.rs:1795-1800 | a counter reaches n exactly when the last n processed frames all agree |
| CropRuns.ReuseIsBounded | src/bin/systemless.rs:1765-1789 | a reused verdict is the histogram's for the same rectangle, at most seven consultations ago, with only that rectangle consulted since |
| CropRuns.StaleExactly | src/bin/systemless.rs:1773-1778 | a verdict is eight or more frames old exactly when the cache answers it and was filled that many frames ago |
| CropLearners.CropLearner.HasInactive | src/bin/systemless.rs:1770-1789 | the cached or fresh verdict, as the sequence of consultations determines it |
| CropLearners.CropLearner.ActiveMarginCrop | src/bin/systemless.rs:1790-1795 | a crop is judged exactly when it is proper, the screen is 8-bit and no dialog is up; active exactly when that verdict is not quiet |
| CropLearners.CropLearner.Authoritative | src/bin/systemless.rs:1807-1833 | the explicit frame, if it is a crop and (while learning again) quiet; else, while learning, the manual or declared rectangle if quiet |
| CropLearners.CropLearner.Infer | src/bin/systemless.rs:1845-1879 | CopyBits evidence before the centred detector; an unchanged frame gives none |
| CropLearners.CropLearner.Confirm | src/bin/systemless.rs:1880-1901 | candidates accumulate confirmations and are accepted at the required count |
| CropLearners.CropLearner.Conclude | src/bin/systemless.rs:1902-1929 | a new crop resets the candidate and the counters; a fall-back starts learning again |
| CropLearners.CropLearner.ChangeMode | src/bin/systemless.rs:1744-1757 | another screen mode resets the learner, the same one keeps it |
| CropLearning.FromCopyBits | src/bin/systemless.rs:2960-2988 | an accepted guest rectangle lies inside the screen and is not the whole of it |
| CropLearning.CopyBitsExactly | src/bin/systemless.rs:2960-2988 | a guest rectangle is accepted, as it is, exactly when it lies on a screen of at least 32 pixels each way, leaves at least four out on some side and covers at least half of it each way |
| CursorLayouts.CursorLayouts.Native | www/src/host_cursor.rs:213-242 | a new picture adds its exact bounds to the known shapes unless 64 are, a known or blank one changes nothing; the image shown has the common square's size and hotspot exactly when its picture is known and there is a square, else its own, and looks the same around its hotspot as the sampled one |
| CursorLayouts.ScaledIsNearest | www/src/host_cursor.rs:103-119 | a size is refused exactly when a scaled side passes 128; else each side is the nearest whole number of at least one, and the hotspot the nearest one inside |
| CursorLayouts.SwitchAmongKnown | www/src/host_cursor_layout.rs:1-3 | any sequence of known pictures at one scale registers nothing; if the known shapes have a common square all images shown have one size and hotspot, else each its own; each looks like its own picture |
| CursorLayouts.ShowAll | www/src/host_cursor_layout.rs:27-53 | pictures once shown are known from then on, until 64 shapes are |
| CursorLayouts.CursorLayouts.Observe | www/src/host_cursor_layout.rs:27-53 | a shape is known exactly when its exact alpha bounds are registered or it shows nothing; a new one is added at the end, refused only when 64 are known |
| CursorLayouts.CursorLayouts.Plan | www/src/host_cursor_layout.rs:55-94 | the square with room for every known shape, if one fits 128 pixels |
| CursorLayouts.LayoutFits | www/src/host_cursor_layout.rs:70-87 | a layout with room for a shape takes every sampled picture of that shape |
| CursorLayouts.SampleDuality | www/src/host_cursor_layout.rs:70-77 | floor(x·w/ow) lies in [l,r) exactly when x lies between the rounded-up transformed bounds |
| CursorLayouts.RoomIsLeast | www/src/host_cursor_layout.rs:64-83 | the running maxima are the least room covering every shape |
| CursorLayouts.SquareIsLeast | www/src/host_cursor_layout.rs:84-94 | no smaller power of two of at least 32 encloses it, whatever the hotspot; none within 128 when declined |
| CursorLayouts.Repack | www/src/host_cursor_layout.rs:97-114 | succeeds exactly when every visible pixel fits, and then shows the same at every offset from the hotspot |
| CursorLayouts.BoundsAreUnique | www/src/host_cursor_layout.rs:28-44 | the alpha bounds are exact |
| CursorLayouts.HullOf | www/src/host_cursor_layout.rs:28-44 | the scanning loops compute them |
| CursorLayouts.Sample | www/src/host_cursor.rs:229-236 | the sampling loops are nearest-neighbour sampling |
| CompactColours.PaintCompact | www/src/renderer-gpu.js:239-262 | a packet is validated, its detail uploaded and every pixel shaded from that texture: shown exactly when some whole output scale makes it acceptable and its detail fits the texture, and then each pixel is what the native resolver computes; at the packet's own scale s pixel (y, x) shows the red, green and blue bytes of its cell's word, or of word (y mod s) s + x mod s of the tile the cell refers to |
| CompactColours.SamplesShown | src/systems/macintosh/memory/presentation/compact.rs:64-155 | at the packet's own scale the words of cells and tiles are shown one by one, row by row |
| CompactColours.NearestShown | www/src/renderer-gpu.js:110-113 | enlarged, a pixel of a detailed cell shows the word nearest to its middle |
| CompactColours.AveragedShown | www/src/renderer-gpu.js:114-125 | reduced, it shows the average of the words of the tile by what each has in common with the pixel, rounded |
| CompactColours.ShaderMatchesResolver | www/src/compact_vectors.rs:7-41 | for every packet the validator accepts, every pixel and channel, the colour the fragment program computes equals the native resolver's |
| CompactColours.ResolverYieldsColour | src/systems/macintosh/memory/presentation/compact.rs:64-155 | at every whole output scale the resolver yields the plain colour or the rounded area average of the tile |
| CompactColours.CompactColour | www/src/renderer-gpu.js:98-125 | the fragment program computes exactly that colour |
| CompactColours.WeighRows | www/src/renderer-gpu.js:114-122 | the double loop over the tile adds up the weighted samples |
| CompactColours.ColourBetween | www/src/renderer-gpu.js:114-125 | a colour lies between the least and greatest sample of its tile, so equal samples are kept |
| CompactColours.PixelIsByte | www/src/renderer-gpu.js:124-125 | a colour is a byte |
| CompactAxis.WeightsSum | www/src/renderer-gpu.js:115-120 | the overlap weights of one output pixel sum to the scale |
| CompactAxis.MiddleInTile | www/src/renderer-gpu.js:110-113 | the enlarging sample is inside the tile, with the clamp never needed |
| CompactAxis.AlignedSpan | src/systems/macintosh/memory/presentation/resample.rs:14-48 | at a whole output scale the resolver takes samples of one cell, weighed as the shader weighs them times the logical size |
| CompactSampling.Validate | www/src/renderer-gpu.js:16-38 | accepts exactly the frames that are whole multiples with all detail references inside |
| CompactSampling.OffsetFitsThreeBytes | www/src/renderer-gpu.js:107-108 | rebuilding an offset from three bytes loses nothing |
| CompactSampling.DetailTexture.Upload | www/src/renderer-gpu.js:240-257 | after an upload every detail word is at its index's place, also when the texture is reused; refused exactly when it needs too many rows |
| CompactColours.CompactSample | www/src/renderer-gpu.js:98-102 | the texture fetch reads the detail word meant |
| CoverageArithmetic.QuotientIsExact | src/systems/macintosh/display.rs:194-203 | division by the reciprocal with one correction is exact for every numerator below the base |
| CoverageArithmetic.RoundingScales | src/systems/macintosh/memory/presentation/compact.rs:102-150 | scaling sum and coverage alike does not change the rounding |
| HeadlessRuns.RunHeadless | src/bin/systemless.rs:3761-3841 | the run in chunks ends exactly as the run one instruction at a time, for every chunk size and however the guest cuts its slices; and an ordered script is delivered on time |
| HeadlessRuns.RunScript | src/bin/systemless.rs:3761-3841 | a script as written, parsed and run: events before the end delivered once, each at its own instruction count, those of one instant in the order written |
| HeadlessRuns.RunOnTime | src/bin/systemless.rs:3767-3838 | each event before the end is delivered once, in order, at its own instruction count; the budget is never passed; an event at the very end reaches only a guest that then stops |
| HeadlessRuns.BatchIsSteps | src/bin/systemless.rs:700-711 | with nothing due, executing several instructions at once is executing them one by one |
| HeadlessRuns.DeliverDue | src/bin/systemless.rs:3774-3812 | delivers everything due and stops at the first later event |
| InputScripts.ParseScript | src/bin/systemless.rs:617-692 | the script is ordered by time and keeps, at every instant, the written order of the expanded lines |
| InputScripts.ClicksArePaired | src/bin/systemless.rs:654-684 | each click or key press line yields a down and then the up that releases it, at the line's time; nothing stays held |
| InputScripts.OrderIsUnique | src/bin/systemless.rs:691-691 | that order is the only one |
| HeldInputs.InputRelay.Press | www/src/emulator-worker.js:139-144 | a waiting release of the id is delivered first and ends its press, then the down; a press still held goes on; nothing else changes |
| HeldInputs.InputRelay.Release | www/src/emulator-worker.js:152-161 | delivered at once, ending its press, unless the press is held and may not end yet, when it waits in place of an earlier one |
| HeldInputs.InputRelay.RunFrame | www/src/emulator-worker.js:209-222 | delivers, in order, exactly the waiting releases whose press may now end, or all when the guest stopped, and records each; the others go on waiting |
| RelayRuns.RelayRun | www/src/emulator-worker.js:139-222 | every run, as its states determine it: each alternating id's input is applied in order but for a waiting release, which waits only while its press is held and may not end yet; every applied up has its record, in order: it ends the press that is held, known by the number of frames before the down that began it, exactly if its id was held; it is forced exactly when a later down of the id or a frame on which the guest has stopped applied it; and otherwise the guest had run since that press began and six ticks had passed or it was tracking |
| RelayRuns.RunIsExact | www/src/emulator-worker.js:139-222 | the same of every run on values: the records and the waiting releases |
| RelayRuns.AllStartRight | www/src/emulator-worker.js:139-159 | at every moment and for every id, the stored press is the one held: it began with the first down that no up applied since has ended |
| RelayRuns.RunIsUnique | www/src/emulator-worker.js:139-222 | the states of a run are determined by its events |
| RelayRuns.RunIsGood | www/src/emulator-worker.js:139-222 | every state of every run keeps the stored presses exact and the input faithful |
| RelayRuns.HeldOnce | www/src/emulator-worker.js:139-159 | one press of an id is held at a time |
| HeldInputs.DecidedIsOutcome | www/src/emulator-worker.js:216-222 | deciding the waiting releases one after the other is deciding them at one stroke |
| HeldInputs.SplitExactly | www/src/emulator-worker.js:216-222 | a frame delivers or keeps each waiting release, exactly by whether its own press may end |
| HeldInputs.DeliverNow | www/src/emulator-worker.js:139-161 | delivering keeps each alternating id's input in order with none lost |
| HeldInputs.WaitNow | www/src/emulator-worker.js:155-157 | so does making a release wait |
| HeldInputs.DeliverWaiting | www/src/emulator-worker.js:215-221 | and delivering a waiting one |
| HeldInputs.HeldRipe | www/src/emulator-worker.js:146-150 | the stored press state decides exactly whether the guest has run since the press and six ticks (modulo 2^32) have passed or the interface is tracked |
| HeldInputs.ElapsedIsExact | www/src/emulator-worker.js:146-150 | any number of ticks below 2^32 is measured exactly, also across a wrap of the tick counter |
| HeldInputs.SixTicks | www/src/emulator-worker.js:146-150 | n ticks after its frame a press may end exactly when the guest has run since and n is at least six or the interface is tracked |
| ScratchResources.ScratchBuffers.BindGroup | src/gpu_compute/buffers.rs:66-125 | the group binds exactly the requested pipeline and buffers; only the role's slot changes, bitmap pipelines stay distinct, and no cached group holds a replaced scratch buffer |
| ScratchResources.ScratchBuffers.Get | src/gpu_compute/buffers.rs:129-170 | the buffer is at least as large as asked for exactly when the device limit allows it; a new one has the capacity below, growing drops every cached group, and otherwise nothing changes |
| ScratchResources.CapacityIsLeast | src/gpu_compute/buffers.rs:145-145 | the capacity is the least power of two with room for the size and for four bytes, or the limit |
| ScratchResources.ScratchBuffers.FindSlot | src/gpu_compute/buffers.rs:74-88 | the role's slot: fixed, or the pipeline's own, else a free one, else the first |

## Left out

- FrameRenderer.Renderer.RenderCompact: the exporter that fills a compact packet from the outline surface is a parameter; that its packet is shown as the surface expands is assumed here, and proved of the resolver and the shader in `CompactColours`.
- FrameRenderer.Replay: says nothing about a paint of a refusing outline surface beyond the exact condition in `PaintTwice`; real byte offsets (four per pixel) are modelled as pixels.
- CursorDrawing.RenderCursor: the ARGB variant of the same loop is not modelled separately.
- TileBinning.BoundsAreConservative: coordinates are reals, so floating-point rounding of the shader's edge function is not modelled.
- RasterTiles.Rasterize: the separate texts of the three size errors are one refusal.
- PacketOrder.Emit: depths are reals; the order of packets whose depth is not a number is not modelled.
- GpuMessages.CurrentLayouts: an `f32` is four opaque bytes and `usize` is 32 bits wide, as in the browser build; the error texts of malformed messages are not distinguished beyond success and failure.
- GpuReplies.ReplyRoundTrip: the kernels that compute replies are not modelled, only the shape of what they return.
- ComputeBridge.StepKeepsInv: timings and the failure statistics shown to the user are not modelled.
- RendererTransports.Transport.SubmitPacket: the checks on packet kinds and view types are one flag, and elapsed times are not modelled.
- AudioQueues.NativeQueue.Render: the initial silence and clearing of the native queue are not modelled; samples are reals.
- AudioQueues.WorkletQueue.Process: diagnostics counters are not modelled.
- ContentMargins.CountMargin: rows are sequences cut from the framebuffer once; the closure that counts a slice is a method.
- CropLearners.CropLearner.Process: the window requests, the viewport cache on disk and the messages printed on a change are not modelled.
- CursorLayouts.CursorLayouts.Native: scales are positive reals, so the checks for infinite scales disappear; the image rows are sequences built once instead of one buffer written in place; drawing and encoding the image are left out.
- CompactColours.ResolverYieldsColour: the resolver's loops are recursive sums, and only whole output scales are covered; other drawable sizes have no counterpart in the shader.
- CompactColours.CompactColour: one channel at a time, since the shader's vector arithmetic works on each component alone; pixel centres and the flipped vertical axis of the texture are taken as addressing.
- HeadlessRuns.RunHeadless: screenshots, saves and the debug server are not modelled.
- InputScripts.ParseScript: splitting text into words and reading numbers are not modelled; the library sort is an insertion.
- HeldInputs.InputRelay.Press: what the machine does with input is not modelled.
- ScratchResources.ScratchBuffers.Get: device errors on buffers beyond the limit and sizes above 2^63 are not modelled.
- The proxy that disables GPU dispatch after a failure (`www/src/gpu_proxy.rs`), the renderer owner and the renderer client: thin layers above the transports modelled here.
- The incremental compact exporter and the retained outline surface: they need the guest memory model.
- Guest CPU, Toolbox, memory bus, window handling, catalogue, storage, pacing and command-line parsing.
