# wobble-psx, verified

Models of the hardest parts of the wobble-psx emulator's core library, with
proofs of what they promise. `dafny verify dfyconfig.toml` checks all of it.

Each component has a specification on values, lemmas about it, and, where the
source keeps state in place, a class whose methods are proved to take exactly
the steps the specification says.

| files | component |
|---|---|
| `Words.dfy` | the machine's fixed-width integers, over unbounded ones |
| `RasterGeometry.dfy` `RasterFill.dfy` `RasterPlane.dfy` `RasterLine.dfy` `RasterDraw.dfy` `RasterPixels.dfy` | triangles, quads and lines: which pixels, and in what colours |
| `Gte.dfy` | the geometry engine's reciprocal, divide and accumulators |
| `Ram.dfy` `Dma.dfy` `DmaController.dfy` `DmaPackets.dfy` | main memory and the controller that moves it |
| `Mdec.dfy` `MdecTransform.dfy` `MdecDecoder.dfy` `MdecUnit.dfy` `MdecPicture.dfy` | the movie decoder |
| `Timers.dfy` `TimersUnit.dfy` `TimersClock.dfy` | the root counters |
| `Console.dfy` | the scheduler, event dispatch and the video clock |
| `Cpu.dfy` `CpuUnaligned.dfy` `CpuPairs.dfy` | the load delay slot, and the unaligned loads and stores |
| `CdRom.dfy` `CdRomReading.dfy` `CdRomOverrun.dfy` `CdRomDrive.dfy` `CdRomHandshake.dfy` | the drive's answers, its reading, and the handshake software has with it |
| `GpuPort.dfy` `GpuPortUnit.dfy` `GpuPortRectangle.dfy` | commands and rectangles through the GPU's port |
| `SpuEnvelope.dfy` `SpuRates.dfy` `SpuVoice.dfy` | envelopes, and the ring mixed sound leaves by |
| `SaveState.dfy` `SaveStateBuffer.dfy` | save states |

## Reading the models

Integers are unbounded; a width, a wrap, a truncating division or a cast is
written out where the source has one. Casts that lose bits go through `ToU32`
and `ToS32`, division that rounds towards zero through `TruncDiv`. Two operands
of an `|` that never overlap are added. A device on the other side of a port is
a stream: what it will give and what it has been sent.

The CPU is modelled over any instruction set: an instruction is a function of
the registers it reads and of the rest of the machine, so a statement over all
runs is one over all programs. `CpuUnaligned` supplies four instructions of the
real set, and `CpuPairs` runs them. The CD-ROM drive keeps books of what it
accepted, delivered and passed; they are ghost state in the class and no step
reads them.

## Where the code and its comments differ

The models follow the code.

- `src/timers.h:35-40` says an interrupt is at most a heartbeat late. The wrap
  flag can be raised for a counter that never reached FFFFh, and the target flag
  is missed when a span starts at or past the target: `WrapFlagExactly` and
  `TargetFlagExactly` give the exact conditions, `WrapFlagRaisedWrongly` and
  `TargetFlagMissed` an input for each. A value read is exact, as the same
  comment says.
- `src/cdrom.cpp:494-497` says a sector software has not collected is never
  overwritten. The test beside it holds the drive back only when two answers
  wait. `ReplacedExactly` says of any tick whether it replaces the sector, and
  `SectorOverwritten` that an unattended read always comes to lose one before
  its INT1 is delivered; `LostFromReset` is a run from power on that does.
  `BufferedIsAnnounced` says when the buffer is the sector announced.
- `src/savestate.cpp:12-13` expects the traversal to write nothing after a short
  read. `raw` does not look at `ok`. `SilentExactly` gives the condition on the
  schema and the room left under which nothing is written to any machine, and
  under every other one some machine is overwritten; `StillWritten` is an input.
- `src/cdrom.cpp:998-1001` says a read's two status bits tell what it is doing.
  Closing a lid that is already shut clears both under a running read, and
  nothing asks whether it is shut (`src/debugger.cpp:897-899`): `StatusTells`
  shows that is the only step which does, `RunTells` that on a run without one the
  bits are always right, and `TellsNoMore` a run on which they are not.
- `src/cpu.cpp:528-533` says a pair of partial accesses moves any unaligned word.
  The halves read their registers one instruction apart, and a pending load can
  land between them. `LeftThenRight`, `RightThenLeft` and `PairStores` say
  exactly when the pair is right whatever memory holds; `BaseMustHold` and
  `ValueMustHold` are inputs for which it is not.

## Model

| member | source | states |
|---|---|---|
| RasterGeometry.EdgeFits | src/raster.cpp:73-76 | every edge function of corners the GPU can name fits its s32, at every pixel |
| RasterGeometry.WeightsSum | src/raster.cpp:73-76 | the three edge functions of a pixel share out the signed area exactly, so they are weights |
| RasterFill.SeamRule | src/raster.cpp:78-95 | of the two directions along one line exactly one accepts any given pixel |
| RasterFill.SharedEdgeDrawnOnce | src/raster.cpp:78-95 | two triangles on opposite sides of a shared edge never cover the same pixel |
| RasterFill.CoverageIgnoresOrder | src/raster.cpp:444-467 | the covered set is the same for all six orders of the corners |
| RasterFill.QuadPartition | src/gpu.cpp:737-743 | whenever the outer corners lie on opposite sides of the diagonal, straight or turned-back corners included, the two triangles share no pixel and cover every pixel inside the four outer edges; when no corner turns back they cover nothing else |
| RasterFill.BetweenUpOrRight | src/raster.cpp:89-95 | the directions the rule accepts form a cone, which is why a diagonal never opens a seam |
| RasterFill.EdgeInterpolates | src/raster.cpp:68-76 | an edge function at a pixel is the weighted mean of its values at the corners |
| RasterFill.HalfWithinOutline | src/raster.cpp:448-467 | what one triangle of a convex quad accepts, corners and seams included, the quad's outline accepts |
| RasterPlane.RegisterIsExact | src/raster.cpp:117-162 | mod-2^32 wrapping in the plane's setup and read cancels: the read is the top byte of the unwrapped value |
| RasterPlane.SortedAndAnchored | src/raster.cpp:174-196 | the three-swap sort orders the corners down the screen, keeps them all, and the anchor still names the leftmost |
| RasterPlane.SortingKeepsArea | src/raster.cpp:183-199 | no swap changes the size of the determinant |
| RasterPlane.DeterminantIsArea | src/raster.cpp:198-199 | the sorted determinant is the signed area the fill rule uses |
| RasterPlane.StepsFit | src/raster.cpp:132-152 | for every triangle the GPU can be given no numerator and no truncated step leaves its 32 bits |
| RasterPlane.NamedTrianglesFit | src/gpu.cpp:684-693 | eleven-bit corners under one offset never span more than 2047 either way |
| RasterPlane.AnchoredIdentity | src/raster.cpp:138-162 | from whichever corner is the anchor, the two numerators describe the exact interpolation |
| RasterPlane.StepError | src/raster.cpp:132-136 | on each axis truncation stops short of the exact rise, never past it, by at most a part of the determinant for each pixel |
| RasterPlane.TwoAxes | src/raster.cpp:117-162 | where the axes pull the same way the truncated sum lies between the anchor's value and the exact one, and where they pull apart only one axis's error counts: so the range holds at any size |
| RasterPlane.NeverWraps | src/raster.cpp:117-130 | the exact register value of a covered pixel stays within the corners' range, so inside 32 bits |
| RasterPlane.PlanesStayWithinCorners | src/raster.cpp:114-226 | every colour channel and texture coordinate of every covered pixel of every triangle the GPU can be given lies between the corner values, and is off the exact interpolation by at most half a level and a 4096th for each pixel from the leftmost corner: under 7/8 up to 1023 by 511 |
| RasterLine.StepGain | src/raster.cpp:580-591 | the step rounded away from zero gains less than one step count over the whole line |
| RasterLine.LineEnds | src/raster.cpp:538-651 | max(abs dx, abs dy) + 1 positions, the first and last exactly on the named ends |
| RasterLine.LineMoves | src/raster.cpp:558-624 | one pixel a step along the longer axis, at most one on the other, never back |
| RasterLine.LineStaysClose | src/raster.cpp:558-624 | every position is within 1/2 + 2^11/2^32 pixel of the ideal line on both axes |
| RasterLine.LinePixelsDistinct | src/raster.cpp:558-624 | no position is visited twice |
| RasterLine.LineSameFromEitherEnd | src/raster.cpp:538-651 | the line from one end touches exactly the pixels of the line from the other |
| RasterLine.ShadeBetween | src/raster.cpp:600-634 | each shaded channel stays between its values at the two ends |
| RasterDraw.Gpu.Put | src/raster.cpp:384-401 | one pixel of VRAM changes, through mask, blend and dither, and no other; what it becomes is said field by field by `RasterPixels.ColourStored`, `DitherMovesOneStep` and `BlendStored` |
| RasterDraw.Gpu.DrawTriangle | src/raster.cpp:444-531 | the bounding-box walk paints each covered pixel of the draw area once, counts it once, and leaves every other alone |
| RasterDraw.Gpu.DrawQuad | src/gpu.cpp:737-743 | any quad paints and counts its two triangles in turn; with the outer corners on opposite sides of the diagonal each pixel of their union once, and with no corner turned back exactly the pixels inside the outer edges |
| RasterDraw.QuadPixelsPartition | src/gpu.cpp:737-743 | as sets of pixels in the draw area, opposite-sided triangles are disjoint, add up in count, and include the whole outline |
| RasterDraw.OuterIsFan | src/gpu.cpp:737-743 | for a quad with no corner turned back, straight ones allowed, the pixels drawn are exactly the pixels inside its outer edges |
| RasterDraw.PaintedOnce | src/gpu.cpp:737-743 | two disjoint triangles drawn in turn leave each pixel painted once, in the tint of the one it belongs to |
| RasterDraw.Gpu.DrawLine | src/raster.cpp:533-651 | the 64-bit walk paints exactly the positions of the line inside the draw area, each once, or nothing for a line too long |
| RasterDraw.LineColourIs | src/raster.cpp:600-634 | the running colour sums equal the closed form, within the two ends' colours |
| RasterDraw.UntouchedExactly | src/raster.cpp:533-651 | a pixel is left alone exactly when it is off the line or outside the draw area |
| RasterPixels.ColourStored | src/raster.cpp:32-70 | an opaque undithered pixel stores the top five bits of each byte of its command's colour, red lowest, and the mark only if asked |
| RasterPixels.ProtectedStands | src/raster.cpp:384-401 | a protected pixel is left as it was, whatever is drawn on it |
| RasterPixels.DitherMovesOneStep | src/raster.cpp:44-66 | dithering adds the place's offset to each channel before the clamp and the cut, and moves none by more than one of its 32 levels |
| RasterPixels.DitherSpreads | src/raster.cpp:44-53 | the eight offsets occur once each in every two rows of four, and the pattern steps two across and two down |
| RasterPixels.BlendStored | src/raster.cpp:228-250 | a translucent pixel, channel by channel, in each of the four modes, as arithmetic on the five bits behind and the eight in front |
| RasterPixels.ModesApart | src/raster.cpp:228-250 | half and half ends between the two, adding never darkens, subtracting never brightens, and the quarter adds at most a quarter |
| RasterPixels.TintBetween | src/raster.cpp:114-226 | each channel of a covered pixel lies between the same byte of the three corners' colour words, and each texture coordinate between theirs |
| RasterPixels.FlatTriangle | src/raster.cpp:114-226 | a triangle of one colour is exactly that colour all over |
| RasterPixels.FlatTriangleStores | src/raster.cpp:384-531 | from the command to VRAM: every covered unprotected pixel of a flat opaque triangle holds the five top bits of each byte of its colour |
| RasterPixels.BoxIsHalfOpen | src/raster.cpp:78-95 | an upright rectangle drawn as a quad takes its top row and left column and leaves its bottom row and right column |
| RasterPixels.InsideIsCovered | src/raster.cpp:73-95 | strictly inside all three edges a pixel is always drawn, outside any of them never, whichever way the corners turn |
| RasterPixels.SettingsRead | src/raster.cpp:303-344 | the draw area, blend mode, dither and mask of a primitive are the fields of the words that set them |
| RasterPixels.ShadeIsMix | src/raster.cpp:597-634 | a shaded line has both its ends' colours exactly, and between them each channel is within three quarters of a level of the straight mix |
| Gte.MakeReciprocalTable | src/gte.cpp:133-141 | the 257 entries are the seeds, the last one clamped to a byte |
| Gte.SeedBounds | src/gte.cpp:133-141 | every seed fits its byte, and with its index never exceeds 768 |
| Gte.Normalises | src/gte.cpp:438-441 | shifting out the leading zeros of any non-zero depth leaves bit 15 set |
| Gte.SeedDefect | src/gte.cpp:443-444 | the table index stays in 0..256 and the seed is within 49152 parts of the true reciprocal |
| Gte.NewtonError | src/gte.cpp:445-450 | two Newton-Raphson steps square the defect, leaving only two roundings |
| Gte.LastSeed | src/gte.cpp:133-141 | the one seed the table cannot hold still gives a reciprocal in bounds |
| Gte.ReciprocalError | src/gte.cpp:443-450 | the reciprocal times the divisor is 2^32 to within 25/16 of 2^16 |
| Gte.ScaledFits | src/gte.cpp:443-455 | no intermediate underflows or leaves its register |
| Gte.QuotientError | src/gte.cpp:429-457 | whenever H < 2 SZ3 the limited result is within 29/8 of 65536 H / SZ3 |
| Gte.ThreeIsNotEnough | src/gte.cpp:429-457 | H = 58912, SZ3 = 29669 is more than three out, so four is the least whole bound |
| Gte.Geometry.PerspectiveDivide | src/gte.cpp:429-457 | the divide by table and shifts gives that quotient, and raises its flag exactly on overflow |
| Gte.Geometry.Accumulate | src/gte.cpp:297-308 | one term added in 44 bits, flagged exactly when the total leaves them |
| Gte.Geometry.TransformRow | src/gte.cpp:382-395 | a row of a matrix product ends on the true sum modulo 2^44, with every partial overflow flagged |
| Gte.RunningWraps | src/gte.cpp:293-308 | however it wrapped on the way, the accumulator ends on the true sum's low 44 bits |
| Gte.RaisedExactly | src/gte.cpp:293-308 | no flag stands exactly when no partial sum left the range, and then the sum is exact |
| Gte.FirstLeaves | src/gte.cpp:297-308 | and the first sum to leave it raises the flag of the side it left by |
| Ram.MaskedAdd | src/dma.cpp:452-468 | whole words may be added before the address mask or after it |
| Ram.WriteThenRead | src/dma.cpp:452-468 | a word written reads back, and no other aligned word changes |
| Dma.AddressesDistinct | src/dma.cpp:553-571 | within one lap of RAM no two words of a run share an address |
| Dma.MovedAddress | src/dma.cpp:553-571 | after k words the address is the start plus or minus 4k modulo 2 MB |
| Dma.MovedSplits | src/dma.cpp:553-571 | a transfer with a device behind it can be cut anywhere |
| Dma.SentInOrder | src/dma.cpp:553-571 | a run to a device sends RAM's words at the run's addresses, in order, RAM unchanged |
| Dma.ReceivedInOrder | src/dma.cpp:553-571 | a run into RAM leaves each word at its own address and changes nothing else |
| Dma.SlicingIsInvisible | src/dma.cpp:630-667 | however a list walk is sliced it visits the same nodes and sends the same words |
| Dma.ListTurnsWalk | src/dma.cpp:630-686 | the turns of a list transfer, each of its own number of nodes, leave channel, MADR and device where one walk of the total would, and put the channel down exactly at the end marker |
| Dma.WalkSplits | src/dma.cpp:630-667 | a walk of m nodes and then n is a walk of m + n |
| Dma.OtcBuildsTable | src/dma.cpp:384-417 | channel 6 writes each entry's predecessor, the end marker last, and nothing else |
| Dma.TableWalk | src/dma.cpp:630-667 | walking an n-entry table from any entry sends nothing and ends at the last entry, not before |
| Dma.TableThenList | src/dma.cpp:577-667 | a channel 6 turn of N words and then list turns from the same MADR, of any number of nodes each: the list is over exactly once N nodes have been read, nothing is sent, RAM stands and MADR is FFFFFFh |
| Dma.BurstTurns | src/dma.cpp:577-597 | k turns move exactly the first k chop windows of the unsplit burst, or all of it once they are enough, and the turn that moves the last puts the channel down |
| Dma.BlockTurns | src/dma.cpp:602-686 | for every BCR, k turns move exactly k blocks of the unsplit transfer, or all of them once they are enough; BCR's high half reads the blocks left, and a count of nought is over in one turn with nothing moved |
| Dma.CarriedAddress | src/dma.cpp:553-571 | MADR through a burst or block transfer is the masked start, four bytes on for every word |
| DmaController.OtcCannotBeChanged | src/dma.cpp:338-345 | whatever is written, channel 6 stays an unchopped burst backwards into RAM, and keeps the enable and trigger bits |
| DmaController.Controller.constructor | src/dma.cpp:213-219 | reset: seven idle channels, channel 6 decreasing, the default priorities and no interrupt, and every invariant met |
| DmaController.Controller.ReadRam | src/dma.cpp:452-459 | a word of RAM at the masked address |
| DmaController.Controller.WriteRam | src/dma.cpp:461-468 | one aligned word of RAM changes |
| DmaController.Controller.ReadFromDevice | src/dma.cpp:384-417 | the device's next word, or channel 6's table entry |
| DmaController.Controller.MoveWords | src/dma.cpp:553-571 | the in-place loop carries out the run, and leaves the other channels and devices alone |
| DmaController.Controller.StepManual | src/dma.cpp:577-597 | one burst turn moves one window |
| DmaController.Controller.StepRequest | src/dma.cpp:602-621 | one request turn moves one block and counts it off BCR |
| DmaController.Controller.SendPayload | src/dma.cpp:639-645 | a node's words to the device, the word after its header first; `DmaPackets.PayloadAt` says at which address each is |
| DmaController.Controller.StepLinkedList | src/dma.cpp:630-667 | a slice is a walk of at least one node that stops only at the list's end, a spent slice, or a device that has had enough |
| DmaController.Controller.Arbitrate | src/dma.cpp:247-266 | the bus goes to the wanting channel of best priority, the highest-numbered among equals, or to none exactly when none wants it |
| DmaController.Controller.Complete | src/dma.cpp:268-281 | a finished channel is flagged if enabled, and the line reported exactly when it newly rises |
| DmaController.Controller.WriteControl | src/dma.cpp:338-354 | a control write lands whole but for channel 6, and clearing the enable bit stops the channel where it stands |
| DmaController.Controller.Event | src/dma.cpp:706-769 | one event gives one turn of burst, block or list to the arbitrated channel, touches no other, and is always later than the last |
| DmaPackets.PayloadAt | src/dma.cpp:636-645 | word j of a node is the one in RAM at its header's address plus 4 + 4j |
| DmaPackets.PacketsWalked | src/dma.cpp:630-667 | over any RAM holding packets linked through any addresses, n nodes send the first n packets |
| DmaPackets.PacketsEnd | src/dma.cpp:630-667 | and any number of nodes: past the marked packet nothing more is sent |
| DmaPackets.PacketsSent | src/dma.cpp:630-686 | list turns of any sizes send exactly the packets' words joined in the order of their links, put the channel down with the last and not before, and leave RAM as it was |
| DmaPackets.FinishedIs | src/dma.cpp:193-198 | a channel that is over has its enable and trigger down and every other bit of its control as it was |
| DmaPackets.UsualControls | src/dma.cpp:13-22 | the control words software writes for a list, a block transfer either way and a chopped burst are read as those |
| DmaPackets.BlockReads | src/dma.cpp:150-163 | BCR's halves are a count of blocks over their size in words, a size of nought being the most |
| DmaPackets.RunsUpOrDown | src/dma.cpp:553-571 | a run goes up four bytes a word, or down when its control says so |
| DmaPackets.MaskedIs | src/dma.cpp:41-44 | only an address's bits inside two megabytes and above the lowest two are used |
| DmaPackets.BusTime | src/dma.cpp:67-72 | sixteen words of RAM hold the bus for seventeen cycles |
| DmaPackets.TurnTime | src/dma.cpp:74-92 | a block takes the longer of what RAM and its device need |
| DmaPackets.LineSwitched | src/dma.cpp:221-232 | forced the line is up, and neither forced nor switched on it is down |
| DmaPackets.ResetOrder | src/dma.cpp:213-219 | at reset every channel is off, and each has priority over the next |
| DmaPackets.FlagRaisesLine | src/dma.cpp:221-281 | with the master switch on an enabled channel's completion brings the line up, and no other bit of DICR is touched |
| DmaPackets.FlagKeptDown | src/dma.cpp:268-276 | a completion that is not enabled leaves the register alone |
| Mdec.TransformIsExact | src/mdec.cpp:61-84 | each sample is the exact double product over 2^32 rounded half up, and within 16384, so s16 loses nothing |
| Mdec.RoundsHalfUp | src/mdec.cpp:76-82 | shift and half bit together are rounding half up |
| Mdec.RowIsDoubleProduct | src/mdec.cpp:61-84 | two one-dimensional passes are the one double sum |
| Mdec.ParsedIsLimited | src/mdec.cpp:408-439 | whatever the codes and tables, every coefficient reaching the transform is inside -400h..3FFh |
| Mdec.ParseStable | src/mdec.cpp:390-441 | a block read whole is read the same with more codes behind it |
| Mdec.ShortLeavesNoTrace | src/mdec.cpp:356-371 | a short block's leftovers cannot be noticed by the parse that retries it |
| Mdec.ParseBlock | src/mdec.cpp:390-441 | a complete block always takes at least one code, so decoding ends |
| MdecDecoder.ConversionFits | src/mdec.cpp:104-111 | no s32 product of the colour conversion overflows for any sample the transform gives |
| MdecDecoder.DrainEarly | src/mdec.cpp:356-388 | decoding before more codes arrive gives what decoding after gives |
| MdecDecoder.FeedingIsBatching | src/mdec.cpp:313-388 | fed word by word or decoded at once: same output, leftover codes, block number and blocks |
| MdecDecoder.EmittedSize | src/mdec.cpp:452-534 | each depth emits a fixed number of words per macroblock or block |
| MdecDecoder.QuarterMakesMacro | src/mdec.cpp:452-471 | a quarter's pixel is the whole macroblock's pixel at its place |
| MdecDecoder.BlockKeepsFit | src/mdec.cpp:356-388 | when a macroblock is emitted every block it is made from is inside the transform's bound |
| MdecDecoder.DrainKeepsFit | src/mdec.cpp:356-388 | and so on through any feeding |
| MdecTransform.InverseDct | src/mdec.cpp:61-84 | the in-place nested loops compute that transform |
| MdecTransform.ColumnPass | src/mdec.cpp:61-84 | the first pass leaves every column sum in its place |
| MdecTransform.RowPass | src/mdec.cpp:61-84 | the second leaves every sample in its place, with one division at the end |
| MdecUnit.Unit.NextCode | src/mdec.cpp:443-450 | the next code if there is one |
| MdecUnit.Unit.DecodeBlock | src/mdec.cpp:390-441 | in place, a whole block parsed and transformed, or a short one reported |
| MdecUnit.Unit.FillBlock | src/mdec.cpp:402-441 | run lengths, quantisation and clamp as the parse has them |
| MdecUnit.Unit.YuvToRgb | src/mdec.cpp:91-119 | one quarter, pixel by pixel; `MdecPicture.ConversionIsClose` says which colour each is |
| MdecUnit.Unit.Assemble | src/mdec.cpp:452-471 | four quarters laid out as sixteen-pixel rows |
| MdecUnit.Unit.EmitMacroblock | src/mdec.cpp:452-505 | the macroblock's words in order, in either colour depth |
| MdecUnit.Unit.EmitPairs | src/mdec.cpp:473-484 | two 15-bit pixels to the word |
| MdecUnit.Unit.EmitPacked | src/mdec.cpp:486-504 | three bytes a pixel end to end across word boundaries |
| MdecUnit.Unit.EmitMonoBlock | src/mdec.cpp:507-534 | one luminance block at four or eight bits a pixel |
| MdecUnit.Unit.DecodeNext | src/mdec.cpp:360-383 | one block decoded and its picture emitted when it is the last, or put back if short |
| MdecUnit.Unit.DecodeAvailable | src/mdec.cpp:356-388 | everything whole is decoded, the rest kept, and the loop ends |
| MdecUnit.Unit.TakeCodes | src/mdec.cpp:313-320 | two codes pushed and decoded as far as they go |
| MdecUnit.Unit.TakeQuant | src/mdec.cpp:322-333 | one word of whichever quantisation table the index has reached |
| MdecUnit.Unit.TakeScale | src/mdec.cpp:335-340 | one word of the scale table |
| MdecUnit.Unit.TakeParameter | src/mdec.cpp:313-349 | a parameter word goes to the command in progress and to nothing else, and the last one ends it |
| MdecUnit.Unit.StartCommand | src/mdec.cpp:276-311 | a command word's parameters counted exactly, and its depth and format taken only by a decode |
| MdecUnit.Unit.WriteCommand | src/mdec.cpp:267-274 | a word is a parameter while a command wants one and a command otherwise: the count, the command in progress, the tables and format, and the decoder are each what the two cases say |
| MdecUnit.QuantLoaded | src/mdec.cpp:322-333 | after any number of a table command's words, byte i % 4 of word i / 4 is entry i of the luminance table, sixteen words on the chrominance one's, and every other entry and setting stands |
| MdecUnit.ScaleLoaded | src/mdec.cpp:335-340 | after any number of its words each scale entry is the signed half sent for it, or what it was |
| MdecUnit.Unit.ReadData | src/mdec.cpp:224-235 | the next output word, in order, or zero when there is none |
| MdecPicture.CodeParts | src/mdec.cpp:31-32 | a code is six bits of run over ten of level, the level signed |
| MdecPicture.ZigzagWalks | src/mdec.cpp:14-23 | the arrival order visits each place once, diagonal by diagonal, turning at every edge |
| MdecPicture.AcIsScaled | src/mdec.cpp:429-436 | a coefficient is level times table entry times factor over eight, to the nearest for those above zero |
| MdecPicture.ParsedAsCoded | src/mdec.cpp:390-441 | the codes of any block that fits, closed by the end code, are parsed into exactly that block, each value in the place its runs add up to |
| MdecPicture.BasisImage | src/mdec.cpp:53-84 | a single coefficient gives its own basis image: its row of the table down times its row across |
| MdecPicture.ConversionIsClose | src/mdec.cpp:86-118 | each component is within 1.2 of y + 1.402 cr, y - 0.344136 cb - 0.714136 cr and y + 1.772 cb, clamp included, for any samples |
| MdecPicture.SignedIsShifted | src/mdec.cpp:34-45 | signed output moves every component by half the range and changes nothing else |
| MdecPicture.PictureIsConverted | src/mdec.cpp:452-476 | pixel (x, y) of a macroblock is the conversion of its own quarter's luminance and its own two by two of chroma |
| MdecPicture.FifteenFields | src/mdec.cpp:121-137 | a fifteen-bit pixel has red lowest, each field its component to the nearest eighth, and the top bit as asked |
| MdecPicture.PairHalves | src/mdec.cpp:478-485 | the left of two pixels is a word's low half |
| MdecPicture.PackedBytes | src/mdec.cpp:487-505 | byte k of the packed picture is component k of its pixels in the order red, green, blue |
| MdecPicture.MonoBytes | src/mdec.cpp:507-521 | eight bits a sample, four to a word, the leftmost lowest |
| MdecPicture.MonoNibbles | src/mdec.cpp:523-534 | four bits a sample, eight to a word, the leftmost lowest |
| MdecPicture.CommandRead | src/mdec.cpp:276-311 | a command word's fields: what it asks for, the picture's shape, and the number of words behind it |
| MdecPicture.CodesInOrder | src/mdec.cpp:313-321 | a word of the stream is two codes, the one in its low half first |
| MdecPicture.MacroblockDecoded | src/mdec.cpp:356-505 | six blocks' codes, whatever follows, come out as one picture: each block placed, dequantised by its own table and transformed, the colours converted and packed, and the decoder at the start of the next |
| Timers.AdvanceCountsEveryCycle | src/timers.cpp:203-236 | one lazy advance leaves value, moment and release as counting every cycle would, for every clock and sync mode |
| Timers.AskingChangesNothing | src/timers.cpp:203-236 | so does any sequence of advances ending at the same time |
| Timers.PartPieceIsCycles | src/timers.cpp:212-234 | up to the sync signal's next change, one multiplication is counting every cycle |
| Timers.LevelHolds | src/timers.cpp:100-138 | between two changes the gate's level holds, and a blanking can begin only on the last cycle |
| Timers.Piece | src/timers.cpp:212-234 | every piece of the walk makes progress and never passes now |
| Timers.DisplayOf | src/gpu.cpp:172-192 | every display setting the GPU can be given is one the counters' proofs cover |
| Timers.ClockGrows | src/timers.cpp:41-65 | no clock source ever runs backwards |
| Timers.CyclesSplit | src/timers.cpp:203-236 | cycle-by-cycle counting can be cut anywhere |
| TimersUnit.Counters.Step | src/timers.cpp:156-201 | a counter clocked at once: value, flags, interrupt and one-shot |
| TimersUnit.Counters.OnePiece | src/timers.cpp:212-234 | one stretch of the edge walk on one counter |
| TimersUnit.Counters.AdvanceOne | src/timers.cpp:203-236 | one counter walked up to now, with its interrupt raised exactly when a piece raised it |
| TimersUnit.Counters.Advance | src/timers.cpp:203-236 | all three brought up to date independently |
| TimersUnit.Counters.ReadValue | src/timers.cpp:238-266 | the value software reads is the one cycle-by-cycle counting gives, and the interrupts the advance raises are raised |
| TimersUnit.Counters.ReadMode | src/timers.cpp:238-266 | reading the mode gives the current flags and clears them, raising what the advance raises |
| TimersUnit.Counters.WriteMode | src/timers.cpp:268-299 | writing the mode starts the counter again after it was brought up to date, raising what the advance raises |
| TimersUnit.WrapFlagExactly | src/timers.cpp:168-180 | the wrap flag is right exactly when the counter does not reset early, stands at FFFFh, or would not have reached 10000h |
| TimersUnit.WrapFlagRaisedWrongly | src/timers.cpp:168-180 | a counter confined to 0..FDE8h is flagged as wrapped by 600 counts from 64999 |
| TimersUnit.TargetFlagExactly | src/timers.cpp:168-180 | the target flag is right exactly when the span starts below the target, the target is zero, or it is shorter than the way round to it |
| TimersUnit.TargetFlagMissed | src/timers.cpp:168-180 | a counter on its target of 100 passes it again 101 counts later and is not flagged |
| TimersClock.PulsesBySource | src/timers.cpp:34-65 | each counter's four sources: a pulse a cycle, one as each line of 2172 ends, or one every eighth cycle |
| TimersClock.DotsKeepPace | src/timers.cpp:45-53 | the dots counted are the whole ones gone by, eleven of the display's cycles to seven of the machine's |
| TimersClock.DotLengths | src/gpu.cpp:172-179 | a dot is as long as the number of them to a line makes it, in all five modes |
| TimersClock.LineShared | src/gpu.cpp:181-192 | a line is its window and the blanking around it in proportion, all blanking with no window and none with a whole one |
| TimersClock.BlankingIs | src/timers.cpp:67-91 | the first counter watches the start of each line and the second lines 240 to 262 of each frame |
| TimersClock.OnePulseCounts | src/timers.cpp:156-174 | a pulse takes a counter to the next value, and from its target, or FFFFh, to zero |
| TimersClock.OnePulseFlags | src/timers.cpp:166-181 | one pulse flags its target when it steps on to it and the end when it steps off it |
| TimersClock.OnePulseInterrupts | src/timers.cpp:183-201 | and asks for an interrupt on either as the mode has it |
| TimersClock.OneShotOnce | src/timers.cpp:190-201 | a one-shot counter interrupts at most once until its mode is written, however it is clocked |
| Console.NextLine | src/gpu.cpp:359-376 | one more scanline keeps the line number and frame count what the total says |
| Console.NextField | src/gpu.cpp:359-376 | an interlaced picture changes field with every frame begun, and no other does |
| Console.StaysInOrder | src/scheduler.cpp:40-68 | the earliest event due joins those fired, and its kind's next deadline is no earlier |
| Console.DebtFalls | src/console.cpp:30-97 | firing an event and letting it reschedule itself always lessens what is overdue, so dispatch ends |
| Console.LinesFromClock | src/timers.cpp:82-90 | with the next scanline still to come, the lines gone by and the blanking follow from the clock |
| Console.Machine.Reset | src/console.cpp:11-28 | the first deadline of every repeating event, nothing fired |
| Console.Machine.ScheduleAt | src/scheduler.cpp:13-16 | one slot replaced |
| Console.Machine.NextDue | src/scheduler.cpp:42-63 | the earliest event now due, first in scan order among equals, taken out; none exactly when none is due |
| Console.Machine.NextScanline | src/gpu.cpp:359-376 | one line on, starting over after the last and changing field there if the picture is interlaced, and the one that enters blanking reported |
| Console.Machine.Fire | src/console.cpp:34-95 | one event handled and rescheduled from its own deadline |
| Console.Machine.FireNext | src/console.cpp:30-33 | the earliest event due fired, if any is: the order kept, and less overdue than before |
| Console.Machine.DispatchDueEvents | src/console.cpp:30-97 | dispatch terminates and leaves nothing due, whatever the DMA controller spends |
| Console.Machine.Step | src/console.cpp:99-105 | after every instruction the scanline, the frame count, the field and the blanking level are functions of the clock, and all that fired did so in order of its deadlines |
| Cpu.BanksAreDelayedLoads | src/cpu.cpp:186-254 | over every run the two banks and one pending load read exactly what a machine told only the history of writes and loads would, LWL/LWR's in-flight view included |
| Cpu.LoadDelay | src/cpu.h:53-57 | the instruction after a load reads what the load itself could; the one after reads the value, unless the delay slot touched the register |
| Cpu.LoadStays | src/cpu.cpp:190-198 | once landed a load stays until something else reaches the register |
| Cpu.OvertakenNeverArrives | src/cpu.cpp:239-248 | a load overtaken in its delay slot is never readable, by any later instruction |
| Cpu.StepTells | src/cpu.cpp:159-254 | one step keeps the banks telling the history |
| Cpu.Processor.constructor | src/cpu.cpp:136-157 | registers clear and nothing pending |
| Cpu.Processor.SetReg | src/cpu.cpp:270-274 | one register of the outgoing bank, and never $zero |
| Cpu.Processor.ScheduleLoad | src/cpu.cpp:276-280 | the one pending load replaced |
| Cpu.Processor.Advance | src/cpu.cpp:159-258 | one instruction's landing, running, displacement and commit |
| CpuUnaligned.UpperBytes | src/cpu.cpp:543-550 | LWL's and SWR's shifts and masks, byte by byte |
| CpuUnaligned.LowerBytes | src/cpu.cpp:574-581 | LWR's and SWL's shifts and masks, byte by byte |
| CpuUnaligned.WindowsKeepWords | src/bus.cpp:28-36 | no memory window splits a word, and RAM never wraps round the address space |
| CpuUnaligned.WindowsMeet | src/bus.cpp:28-36 | the three windows' addresses of one place reach it, and no other address is moved |
| CpuUnaligned.StoredThroughWindows | src/bus.cpp:85-88 | a word stored through any window is read back through any, and no other word has changed |
| CpuUnaligned.HalvesMakeWord | src/cpu.cpp:543-581 | in either order the two loads' bytes are the unaligned word, whatever was held |
| CpuPairs.LeftThenRight | src/cpu.cpp:543-581 | LWL a+3 then LWR a, no nop and any load pending, deliver the unaligned word to rt out of every memory exactly when rt is the base or the base, once that load has landed, names the same physical byte |
| CpuPairs.RightThenLeft | src/cpu.cpp:543-581 | LWR a then LWL a+3, exactly when the same holds |
| CpuPairs.BaseMustHold | src/cpu.cpp:543-581 | an instance: with a load of 4 pending for a base of 0, over any RAM whose bytes at 0 and 4 differ, the pair does not deliver the word at 0 |
| CpuPairs.PairStores | src/cpu.cpp:602-637 | SWL a+3 and SWR a, in either order and with any load pending, store the register to exactly those bytes of every memory, or nothing with the cache isolated, exactly when the second half lands in place and the bytes it writes of the landed rt are those of rt before; only after a first half that wrote the whole word may it lie elsewhere in that word |
| CpuPairs.CompletedRight | src/cpu.cpp:602-637 | SWL then SWR under that condition change exactly bytes a to a+3 |
| CpuPairs.CompletedLeft | src/cpu.cpp:602-637 | and SWR then SWL |
| CpuPairs.SpoiltRight | src/cpu.cpp:602-637 | without it some memory ends up otherwise |
| CpuPairs.SpoiltLeft | src/cpu.cpp:602-637 | and in the other order |
| CpuPairs.NothingPending | src/cpu.cpp:602-637 | with no load about to change the base or rt the condition holds, both ways |
| CpuPairs.ValueMustHold | src/cpu.cpp:602-637 | an instance: with a load of 1 pending for rt neither order stores the register |
| CpuUnaligned.ReplaceRoundTrip | src/cpu.cpp:543-637 | a word stored reads back, and storing what is already there changes nothing |
| CpuPairs.StoreThenLoad | src/cpu.cpp:543-637 | four instructions in a row: wherever the first two stored rt, and the base still names that place, the last two deliver it to rd |
| CdRom.RunSound | src/cdrom.cpp:445-1128 | on every run from reset: accepted = delivered then waiting, at most two wait, data sectors and accepted INT1s are equally many, READING and SEEKING never both up, a read never late is on schedule at its sector |
| CdRom.StepSound | src/cdrom.cpp:794-1128 | every tick, command, acknowledge and lid movement keeps all of that |
| CdRom.AnsweredKeeps | src/cdrom.cpp:445-457 | an answer is accepted exactly when there is room, at the back |
| CdRom.PassedSound | src/cdrom.cpp:518-542 | a sector passed is announced once if it is data and never if it is sound |
| CdRom.ExecutedSound | src/cdrom.cpp:834-1128 | so does every command |
| CdRom.HandedOver | src/cdrom.cpp:813-831 | only a tick hands an answer over, only with no interrupt standing, and it is the next accepted |
| CdRom.NothingOverAnInterrupt | src/cdrom.cpp:824-831 | until software acknowledges, nothing is delivered and the interrupt number stays, over any run |
| CdRomReading.SectorsByTheClock | src/cdrom.cpp:484-527 | a read never late has passed exactly (elapsed - seek) / sector sectors, so the coarse tick never drifts |
| CdRomReading.LateExactly | src/cdrom.cpp:478-501 | what makes a read late: the queue full when a sector is due, a change of speed, or a tick of a whole sector |
| CdRomReading.StatusTells | src/cdrom.cpp:770-779 | the status bits say what the drive is doing, except exactly after closing a shut lid under a running read |
| CdRomReading.RunTells | src/cdrom.cpp:770-779 | so they tell at every moment of a run from reset on which that never happens |
| CdRomReading.TellsNoMore | src/cdrom.cpp:770-779 | a run from reset on which it does: a read is sent and the lid, which is shut, is closed |
| CdRomReading.ComesDue | src/cdrom.cpp:813-831 | with no interrupt standing the head of the queue is delivered by the first tick that completes its delay |
| CdRomReading.BufferedIsAnnounced | src/cdrom.cpp:541-542 | the last INT1 delivered is about the sector in the buffer exactly when no other INT1 waits |
| CdRomOverrun.SectorOverwritten | src/cdrom.cpp:494-501 | on any read nobody attends to, with an interrupt standing: two sectors pass, both announcements wait and the buffer holds the second, against the comment |
| CdRomOverrun.ReplacedExactly | src/cdrom.cpp:474-543 | a tick replaces the buffered sector exactly when a data sector is due and an answer can still be accepted; with an INT1 undelivered, that is when one is due and nothing waits beside it |
| CdRomOverrun.LostFromReset | src/cdrom.cpp:474-543 | a run from reset on which it happens: a read is sent, nothing is acknowledged, and after 4851 ticks of 2048 cycles the first sector is gone before its INT1 is delivered |
| CdRomDrive.Controller.Reply | src/cdrom.cpp:445-457 | one answer queued in place, or dropped where there is no room |
| CdRomDrive.Controller.Deliver | src/cdrom.cpp:459-472 | the front of the queue handed over and the rest moved up |
| CdRomDrive.Controller.AdvanceRead | src/cdrom.cpp:474-543 | at most one sector, held back by a full queue, or the position lost off the end |
| CdRomDrive.Controller.MoveOn | src/cdrom.cpp:518-527 | the seek ends and the next sector keeps the overshoot |
| CdRomDrive.Controller.LosePosition | src/cdrom.cpp:781-792 | the read given up with the seek-error bit in place of the rest |
| CdRomDrive.Controller.Tick | src/cdrom.cpp:794-832 | spin-down, lid report, read and delivery in that order; the line reported exactly for an enabled answer delivered now; what is delivered is the next accepted, and every invariant of a run is kept |
| CdRomDrive.Controller.SpinDown | src/cdrom.cpp:794-806 | an opened drive's disc stops when its time is up |
| CdRomDrive.Controller.ReportShell | src/cdrom.cpp:794-812 | the answer an opened lid owes, sent once there is room |
| CdRomDrive.Controller.Advance | src/cdrom.cpp:813-831 | the head counts down and is handed over when free |
| CdRomDrive.Controller.Execute | src/cdrom.cpp:834-1128 | every command's state and answers |
| CdRomDrive.Controller.Move | src/cdrom.cpp:954-1026 | the commands that move the mechanism |
| CdRomDrive.Controller.ReadOn | src/cdrom.cpp:987-1008 | a read begun, or refused by an empty drive |
| CdRomDrive.Controller.SeekTo | src/cdrom.cpp:1010-1026 | a seek made, or refused with the position lost |
| CdRomDrive.Controller.Inform | src/cdrom.cpp:1028-1124 | the commands that answer from the drive's own registers |
| CdRomDrive.Controller.Consult | src/cdrom.cpp:1028-1112 | the commands that answer from the disc |
| CdRomDrive.Controller.BeginRead | src/cdrom.cpp:987-1008 | a read begins seeking, a whole seek and sector away |
| CdRomDrive.Controller.SeekThere | src/cdrom.cpp:1018-1026 | a seek stops a read and leaves a header |
| CdRomDrive.Controller.WriteCommand | src/cdrom.cpp:1185-1189 | busy from the store until an answer is delivered |
| CdRomDrive.Controller.EnableInterrupts | src/cdrom.cpp:1198-1199 | five enable bits kept and nothing else touched |
| CdRomDrive.Controller.OpenShell | src/cdrom.cpp:746-768 | opening stops the drive and owes an answer |
| CdRomDrive.Controller.CloseShell | src/cdrom.cpp:770-779 | closing leaves the bit up until it is read |
| CdRomDrive.Controller.Acknowledge | src/cdrom.cpp:1229-1235 | a one written clears its flag bit and no other |
| CdRomHandshake.ClearedBits | src/cdrom.cpp:1229-1235 | a one clears its bit and a zero leaves it, so 7 clears any interrupt and 0 none |
| CdRomHandshake.FlagFitsThreeBits | src/cdrom.cpp:458-470 | on every run the interrupt number fits its three bits, half cleared ones included |
| CdRomHandshake.AcknowledgedIsAnswered | src/cdrom.cpp:781-832 | on every run with an answer waiting, an acknowledge and enough ticks deliver the next answer accepted, as interrupt and response, by the first tick that completes its delay and not before |
| CdRomHandshake.LineFollows | src/cdrom.cpp:440-443 | with every enable on the line is up exactly while an interrupt stands, and with none never |
| CdRomHandshake.EveryCommandAnswers | src/cdrom.cpp:834-1128 | no command goes unanswered: each is heard or refused a fixed time on, and the slow ones then say they are done or could not be |
| CdRomHandshake.ReadTakesEffect | src/cdrom.cpp:987-1008 | a read is under way where it was asked for, a whole seek and a sector away |
| CdRomHandshake.SeekTakesEffect | src/cdrom.cpp:1010-1026 | a seek leaves the head at rest over its place, or the drive stopped with its position lost |
| CdRomHandshake.HaltsTakeEffect | src/cdrom.cpp:954-985 | a stop takes the motor down, a pause leaves it, and a reset brings it up and forgets the mode |
| CdRomHandshake.SettingsTakeEffect | src/cdrom.cpp:834-953 | the place and mode a command sets are those it was given, and only a shut lid's bit goes down when it is read |
| CdRomHandshake.LidTakesEffect | src/cdrom.cpp:746-779 | lifting the lid stops everything and owes an answer; shutting it leaves the bit up |
| CdRomHandshake.StatusBits | src/cdrom.h:109-116 | each bit of the status byte is its own flag |
| CdRomHandshake.FailedBits | src/cdrom.cpp:1028-1128 | a refusal is the same byte with the error bit up |
| CdRomHandshake.SectorRate | src/cdrom.cpp:408-414 | seventy-five sectors to a second of the clock, and twice that at double speed |
| CdRomHandshake.UsualSectors | src/cdrom.cpp:545-560 | a sector of compressed sound needs all three bits of its submode, and the mode to have it played |
| GpuPort.PlacesApart | src/gpu.cpp:856-868 | a rectangle that wraps round VRAM never meets itself |
| GpuPort.UploadPlaces | src/gpu.cpp:856-884 | after any number of words each pixel sent is at its place as the mask setting has it, and nothing else has changed |
| GpuPort.DownloadReads | src/gpu.cpp:886-897 | words read give each pixel in order and zero past the last |
| GpuPort.ReadsBackWhatWentIn | src/gpu.cpp:856-897 | what comes back is what the mask setting let in, pixel for pixel, odd counts included |
| GpuPort.RoundTripExactly | src/gpu.cpp:871-884 | the round trip is the identity exactly when no pixel was protected from a different one and none was marked |
| GpuPort.WholeCommands | src/gpu.cpp:108-149 | a command is collected in silence for exactly the words its first one announces, then carried out |
| GpuPort.DrawingReadsItsCommand | src/gpu.cpp:695-843 | polygons, lines and sprites read every word of their command and none past it |
| GpuPort.RectangleFed | src/gpu.cpp:565-573 | no pixel is taken for a command, and the port listens again after exactly ceil(w h / 2) words |
| GpuPort.RectangleRead | src/gpu.cpp:506-521 | reading back ends the same way |
| GpuPort.FedSplits | src/gpu.cpp:550-598 | a stream of words can be cut anywhere |
| GpuPort.TransferBegins | src/gpu.cpp:845-854 | three words begin a transfer of the rectangle two of them name; `GpuPortRectangle.RectangleNamed` says which |
| GpuPort.PortRoundTrip | src/gpu.cpp:506-598 | with the mask setting clear GP0(A0h) then GP0(C0h) returns the same pixels, changes nothing outside and ends in Command mode |
| GpuPort.NotSooner | src/gpu.cpp:506-598 | not a word sooner |
| GpuPort.Length | src/gpu.cpp:108-149 | no command is empty or longer than twelve words |
| GpuPortUnit.Gpu.StorePixel | src/gpu.cpp:856-884 | one pixel in place, wrapped, protected and marked |
| GpuPortUnit.Gpu.LoadPixel | src/gpu.cpp:886-897 | one pixel out, zero past the end |
| GpuPortUnit.Gpu.WriteGp0 | src/gpu.cpp:550-598 | one word through the port's four modes |
| GpuPortUnit.Gpu.Collect | src/gpu.cpp:590-597 | a word collected, and its command carried out when it is the last |
| GpuPortUnit.Gpu.ExecuteGp0 | src/gpu.cpp:600-681 | a transfer begun, a mask setting kept, a polyline entered or a command handed on |
| GpuPortUnit.Gpu.BeginTransfer | src/gpu.cpp:845-854 | corner and size from the two words; `GpuPortRectangle.RectangleNamed` and `RectangleWraps` say what they come to |
| GpuPortUnit.Gpu.Read | src/gpu.cpp:506-521 | two pixels out, or what was latched |
| GpuPortRectangle.RectangleNamed | src/gpu.cpp:845-854 | a width of 1 to 1024 and a height of 1 to 512 are taken as they stand, and take half their product in words, rounded up |
| GpuPortRectangle.RectangleWraps | src/gpu.cpp:24-31 | any other half stands for the size it leaves over, and zero for the whole of VRAM |
| GpuPortRectangle.PlaceOf | src/gpu.cpp:856-868 | pixel j w + i is row j, column i, at (y + j) mod 512 times 1024 plus (x + i) mod 1024 |
| GpuPortRectangle.RectangleRoundTrip | src/gpu.cpp:506-598 | for every width and height: exactly that many words, each pixel in its own row and column, nothing else changed, no pixel taken for a command, and the same pixels back |
| GpuPortRectangle.RectangleNotSooner | src/gpu.cpp:506-598 | and not a word sooner |
| GpuPortRectangle.DrawnIsRead | src/gpu.cpp:886-897 | the pixel the port reads at a row and column is the one the drawing paints there |
| GpuPortRectangle.KeptBits | src/gpu.cpp:870-884 | fifteen bits are the pixel's or the protected one's, and the mark is up if either was marked or marking was asked for |
| GpuPortRectangle.MaskTaken | src/gpu.cpp:600-681 | the mask setting is GP0(E6h)'s two lowest bits and holds through every other command |
| GpuPortRectangle.LengthByOpcode | src/gpu.cpp:108-149 | a command's length depends on its first byte alone |
| GpuPortRectangle.PolygonLengths | src/gpu.cpp:119-127 | the lengths of the eight kinds of polygon |
| GpuPortRectangle.UsualLengths | src/gpu.cpp:108-149 | and of the other commands |
| GpuPortRectangle.EndingWord | src/gpu.cpp:575-580 | a polyline ends with any word that reads 5???5??? in hex |
| GpuPortRectangle.PolylineRuns | src/gpu.cpp:575-585 | a polyline of any length is handed on word by word until the one that ends it, which is not drawn |
| SpuEnvelope.AlwaysFalls | src/spu.cpp:132-146 | a falling rate moves any level not yet zero, however small the fraction |
| SpuEnvelope.AlwaysRises | src/spu.cpp:114-131 | a rising rate always rises |
| SpuEnvelope.WaitBound | src/spu.cpp:119-131 | no wait exceeds 2^22 samples, nor 2^20 on the way down |
| SpuEnvelope.LevelInRange | src/spu.cpp:410-520 | on every run, with any registers, key events and written levels, the level stays in 0..7FFFh |
| SpuEnvelope.ReleaseEnds | src/spu.cpp:410-520 | a released voice neither keyed on nor written is silent within level * 2^20 + wait + 1 ticks, whatever the registers hold on each |
| SpuEnvelope.SustainReached | src/spu.cpp:410-483 | a keyed voice gets through attack and decay within an explicit bound, whatever the registers hold |
| SpuEnvelope.StraightFade | src/spu.cpp:410-483 | a straight release stands at exactly this level and wait after every tick |
| SpuRates.LowRead | src/spu.cpp:418-461 | the low register's fields: attack's curve, shift and step, decay's shift and the sustain level |
| SpuRates.HighRead | src/spu.cpp:462-475 | the high one's: sustain's curve, direction, shift and step, and release's curve and shift |
| SpuRates.SlopeIsRate | src/spu.cpp:114-135 | a straight slope covers step times 2^11 over 2^shift a sample exactly, longer steps and longer waits alike; a curved rise a quarter of it near the top |
| SpuRates.CurvedFall | src/spu.cpp:136-147 | a curved fall takes that step in proportion to the level, rounded down |
| SpuRates.GoesItsWay | src/spu.cpp:410-483 | a level is never on the wrong side of the last one, and moves unless there is a wait or nowhere left to go |
| SpuRates.SustainKeepsItsWay | src/spu.cpp:462-482 | over any run a falling sustain never rises and a rising one never falls, whatever its speed is changed to |
| SpuRates.PhaseEnds | src/spu.cpp:425-447 | attack ends at the top alone, decay at the sustain level or under it, release at silence alone |
| SpuRates.PhasesInOrder | src/spu.cpp:410-520 | until it is keyed on again a voice goes through its phases in order and back to none |
| SpuVoice.Voice.StepEnvelope | src/spu.cpp:410-483 | phases settled before the step, then one move or one tick of wait |
| SpuVoice.Voice.Start | src/spu.cpp:485-494 | attack from silence |
| SpuVoice.Voice.Stop | src/spu.cpp:512-520 | release at once, unless already off |
| SpuVoice.Voice.WriteVolume | src/spu.cpp:665-669 | a written level is clamped |
| SpuVoice.ShapedFits | src/spu.cpp:566-567 | a sample shaped by its envelope is still a sample |
| SpuVoice.Output.PushOutput | src/spu.cpp:522-533 | a frame joins the back, and the oldest is lost only when 16384 already wait |
| SpuVoice.Output.TakeOutput | src/spu.cpp:535-544 | the oldest frames come out in order, once each |
| SaveState.RoundTrip | src/savestate.h:37-79 | loading a save into any fields of the schema takes the whole buffer, and restores every field exactly when no count outgrew 32 bits |
| SaveState.RoundTripAt | src/savestate.cpp:3-41 | wherever in a buffer, loading takes exactly the saved bytes |
| SaveState.KeptWhenFits | src/savestate.h:64-77 | a field survives exactly when its count fits 32 bits |
| SaveState.PrefixFails | src/savestate.cpp:10-15 | every strict prefix of a save ends with ok false, whatever it is loaded into |
| SaveState.StaysFailed | src/savestate.cpp:10-15 | once short, nothing later makes the load succeed |
| SaveState.Loaded | src/savestate.h:64-77 | no read passes the end, and no field grows past the bytes it came from, whatever count a file claims |
| SaveState.SilentExactly | src/savestate.cpp:10-15 | after a short read a traversal of a schema never writes exactly when no non-empty flat field fits the room left at its turn; for any other schema some machine is overwritten |
| SaveState.NothingWritten | src/savestate.cpp:10-15 | when none fits, every field stands |
| SaveState.SomeWritten | src/savestate.cpp:10-15 | when one fits, fields of the same schema are found that do not stand |
| SaveState.StillWritten | src/savestate.cpp:10-15 | an instance: four bytes wanted and two there, and the one-byte field behind is written |
| SaveState.MachineRoundTrip | src/console.cpp:139-172 | a machine's save restores it, any truncation is refused, and one inside the heading touches nothing |
| SaveStateBuffer.State.Raw | src/savestate.cpp:3-19 | bytes appended, or taken in place, or ok cleared |
| SaveStateBuffer.State.Visit | src/savestate.h:37-79 | one field in either direction |
| SaveStateBuffer.State.SaveCounted | src/savestate.h:64-78 | a count and that much of the field |
| SaveStateBuffer.State.LoadCounted | src/savestate.h:64-78 | resized only when the buffer holds what the count claims |
| SaveStateBuffer.State.VisitAll | src/console.cpp:131-137 | one traversal, both ways, over every field in order |
| SaveStateBuffer.SaveMachine | src/console.cpp:139-151 | heading and fields, the machine unchanged |
| SaveStateBuffer.LoadMachine | src/console.cpp:153-172 | the heading looked at before anything is touched |
| SaveStateBuffer.ReadHeading | src/console.cpp:159-165 | exactly this build's eight bytes are known |

## Left out

- Textured drawing: sampling, the texture window, the palette cache and
  modulation. The planes a texture is read through are modelled, the texels are
  not; `RasterDraw` paints untextured triangles, quads and lines.
- Rectangles, VRAM fills and VRAM copies (`src/raster.cpp:653-774`): loops
  without the geometry of the shapes above.
- RasterDraw.Gpu.DrawQuad: when both outer corners are on one side of the
  diagonal the triangles overlap, and the overlap is painted twice, as the
  contract says; which pixels those are is not described further.
- The rest of the geometry engine: lighting, colour, depth cueing, its FIFOs
  and its register file.
- DMA device timing: a device's asking bit and backlog are parameters of an
  event, and the cost of a turn is stated only for the bus it holds.
- Dma.MovedSplits: a transfer with a device behind it. Channel 6 cannot be cut
  anywhere, because its last word differs; it never is, being unchopped
  (`OtcCannotBeChanged`).
- DICR writes and DMA register reads: bit selection only.
- MDEC status and control registers.
- The clock is a natural number: 64-bit wrap of cycle counts is not modelled.
  A deadline of "never" is its own case instead of the largest number.
- Display settings changing while the timers run, and GP1(00h), which restarts
  the scanline count under the clock.
- Console.Machine.Ask: what an instruction asks of the scheduler is any sequence
  of requests, not what a particular instruction would ask.
- The CPU's other opcodes, exceptions' effect on SR, Cause and EPC, branch delay
  slots, BIOS hooks and halting: they touch no register bank, or only through
  the writes and loads that are modelled.
- CpuPairs.PairStores: what lies outside main memory answers loads with a
  function and records the words stored to it, which change no later answer; an
  access whose four bytes cross the end of RAM is not modelled.
- CD audio and compressed sound: a sound sector passes without an announcement,
  and what it sounds like is not modelled.
- The CD-ROM's parameter, response and data FIFOs as software reads them; the
  bytes of Getloc, GetTN and GetTD answers are parameters.
- The GPU's timing, its FIFO of waiting words, GP1 and the display; a completed
  command other than a transfer or the mask setting is handed on as it is.
- SPU voices' decoding, pitch, volume and mixing, and its RAM transfers.
- SaveState.MachineRoundTrip: fields as bytes. That a field's bytes are its value
  is the host's own layout, and which fields each device visits is not modelled.
- File, socket, window and debugger code, disc images, cue parsing, the
  disassembler, the serial port, and the memory and interrupt controllers.
