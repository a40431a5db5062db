# PAN verification

PAN is a data-acquisition system for telescope CCD cameras: it reads an interleaved multi-amplifier pixel
stream by DMA, unscrambles it into amplifier blocks, assembles frames or FITS extensions chunk by chunk,
and coadds samples on the way. This project models five parts of it in Dafny and proves what they promise.

* **Pixel pipeline.** `Amplifiers`, `Orientation`, `Rotation`, `Unscramble`, `Subimage`, `Sections`,
  `SingleImage`, `FrameAssembly`, `FocalPlane`, `Extensions`, `ExtensionFrames`, `RequestedImages`,
  `ExtensionNumbers`, `Pipeline`, `Detectors` (over `Grid` and `Permutations`). Buffers are arrays of pixels of
  any type. The imperative loops of the unscrambler, the rotation, the section copies and the writers are methods
  proved against functions on sequences; the theorems say that the finished frame, extension or detector is the
  intended permutation of the raw stream for every row-aligned chunking, and for a rotated amplifier exactly for
  those chunkings that the rotation formula can turn, mirrored and turned as the caller asked.
* **First-fit DMA allocator.** `Allocator`: a linked list of nodes with head and tail sentinels, its invariant
  over every run, completeness of first fit, and how allocating and freeing undo each other.
* **Expression parser.** `Digits`, `MathParser`, `MathGrammar`, `MathPrinter`, `MathParens`, `MathEval`, `MathValues`:
  the cursor parser with its precedence climbing proved equal, on every text, to a grammar of sums, products and
  factors without levels; the round trip through a printer that writes only necessary parentheses; what every
  form of expression is worth; and when the error flag and evaluation agree.
* **Accumulators and readout.** `Coadd`, `CoaddCalls`, `Fowler`, `Chunks`, `Readout`, `Completion`: counter machines
  against closed forms, and the publish-after-copy protocol of the frame reader as a state machine over arbitrary
  polls, with exactly when it is safe and when it completes.
* **Decimal text.** `Decimals`: printing with six decimals and reading back, with the exact error bound, and the
  value of every form of number.

Run `dafny verify dfyconfig.toml` to check everything.

## How the source is modelled

Mutable C state (global tables, counters, buffers, list nodes) is class fields and arrays; each method states its
whole new state by a function of the old one, and the lemmas are about those functions. Pixels are indexed,
not bytes. All amplifiers have the size of the first, as the writers assume. `PhysMap` is any permutation.
C types are written out where they matter: the allocator computes modulo 2^64 with 4096-byte pages, the
accumulators modulo 2^32, corner types are 8-bit masks, remainders of negative angles truncate. Arithmetic on
`float` and `double` is over the reals, and sine and cosine of quarter turns are exactly 0, 1 and -1.

Parameters stand for what the code asks of its surroundings: whether the kernel has memory for a list node,
what the driver reports and the DMA buffer holds at each poll, what freshly allocated copies hold (`junk`), the
arithmetic `ev` runs in. `fits_write_img` is a store into an array that stands for the file's pixels.

## Where the code does less than it seems to

Each of these is kept as the code has it, with the exact condition proved.

* The rotation formula permutes pixels only for even (or single) dimensions, and never for -270 degrees, which
  `GU_add_amp` can store (`Rotation.FormulaPermutesIff`, `Unscramble.StoredAngleTurnsIff`). For other dimensions
  at least the last cell of the block gets what the temporary copy happened to hold, so an extension of a
  rotated amplifier ends right only for splits without such chunks (`Rotation.LastCellWrittenIff`,
  `ExtensionFrames.FrameLandsIff`).
* With extension numbers out of order and an amplifier discarded, two amplifiers can write to the same extension
  (`ExtensionNumbers.AlwaysApartIff`, `ExtensionNumbers.ReorderedShare`).
* A number with a signed exponent is read twice: as scaled by the exponent, and as a sum or difference with the
  exponent's digits (`MathPrinter.NumberReadIffUnsigned`).
* `MP_evaluate` walks the tree before it looks at the error flag; a missing operand is then a null pointer
  (`MathEval.Evaluate`, `MathEval.CrashesIffError`), unless an unknown function hides it
  (`MathEval.ErrorMayStillEvaluate`).
* Numbers below a millionth in magnitude print as 0 and lose their sign (`Decimals.PrintParse`).
* The 32-bit coadder repeats its skip in every call until a group is complete, so splitting a stream over calls
  changes the result in exactly stated cases (`CoaddCalls.CallsTakeStreamIff`, `Fowler.SkipSplitsIff`); the 16-bit
  one computes the skip and ignores it.
* A request that wraps or is zero becomes an empty block that shares its address with its neighbour; the neighbour's
  client then frees the wrong block (`Allocator.AllocateThenFree`, `Allocator.EmptyRequestSpoilsRestoring`).
* `allocator_free_dma` unlinks the tail sentinel when given its address (`Allocator.FreeKeepsRegionIff`), and its
  message about an unknown address reads through a null pointer.
* A reader that looks again only after the next pass has filled its slot beyond what it had seen copies the later
  frame's pixels (`Readout.ReadoutIsSafeIff`, `Readout.OvertakenIff`, `Readout.OvertakenReadout`).
* Slots are padded to 512 pixels, and a counter below a slot's start is taken for a whole frame; a counter
  without the padding then completes the next frame at once (`Readout.EarlyCountIsTaken`,
  `Readout.EndOfFrameIsEarlyIff`).
* With only the right section routines enabled, left amplifiers are reordered as if they were right ones
  (`Sections.RightAloneMovesLeftRows`).
* Re-arming between frames does not clear the image buffer; that is harmless for the covered pixels
  (`FrameAssembly.FrameOverFrame`), and the others keep the first background.

## Model

| member | source | states |
|---|---|---|
| Amplifiers.StoredTypeIsACorner | PAN/Modules/GUNSC/private/c/src/GU_algors.c:454-499 | for the four type codes, any angle and any flip, the stored type has exactly one corner bit, the side it is read from differs from the requested one exactly by the parity of half turn and flip, and no half turn is left in the stored angle |
| Amplifiers.StoredTypeOneHotIff | PAN/Modules/GUNSC/private/c/src/GU_algors.c:456-499 | the stored type is a single corner if and only if the code is below 4, or a half turn and a mirror come together |
| Amplifiers.OtherCodes | PAN/Modules/GUNSC/private/c/src/GU_algors.c:456-499 | for every code above 3 the stored type is one of five masks, given by half turn and flip |
| Amplifiers.StoredAngleIsRequested | PAN/Modules/GUNSC/private/c/src/GU_algors.c:461-475 | the stored angle and the half turn that went into the type are together the requested angle up to whole turns, with its sign; an angle that is no quarter turn is dropped, a half turn is one exactly when rotate mod 360 is 180, and -270 is stored exactly for a quarter turn asked for as a negative angle |
| Amplifiers.AmpTable.AddAmp | PAN/Modules/GUNSC/private/c/src/GU_algors.c:427-503 | the table grows by exactly one entry holding the given geometry, the sums of its column and row sections, and the type and angle that StoredTypeIsACorner, OtherCodes and StoredAngleIsRequested settle, and the channel map by the extension number; earlier entries stay |
| Orientation.ChannelAt | PAN/Modules/GUNSC/private/c/src/GU_algors.c:602-609 | pixel k of read channel i is raw pixel i + k * namps: the channels are interleaved |
| Orientation.UnscrambledGeometry | PAN/Modules/GUNSC/private/c/src/GU_algors.c:609-656 | for every corner type, pixel (y, x) as read ends in the row and column the corner prescribes: upper amplifiers downwards, right ones mirrored |
| Orientation.RequestedAt | PAN/Modules/GUNSC/private/c/src/GU_algors.c:454-499 | reference meaning of a requested flip and half turn: which pixel of the image each cell shows |
| Orientation.FlipEliminationIsSound | PAN/Modules/GUNSC/private/c/src/GU_algors.c:454-499 | unscrambling any block with the rewritten type equals unscrambling with the requested corner and then applying the flip and half turn that were removed |
| Orientation.OtherKinds | PAN/Modules/GUNSC/private/c/src/GU_algors.c:610-655 | a type that is no single corner is read as upper left when it has that bit, and otherwise leaves the block as it was |
| Rotation.FormulaPermutesIff | PAN/Modules/GUNSC/private/c/src/GU_transformations.c:41-71 | the truncated half-integer formula moves every pixel to a different cell of the transposed block if and only if the angle is not -270 and each dimension is even or 1 |
| Rotation.FormulaMeetsTurn | PAN/Modules/GUNSC/private/c/src/GU_transformations.c:56-65 | wherever the formula permutes, the cell it writes is the cell of an exact quarter turn, given independently in integers |
| Rotation.TurnSourceInjective | PAN/Modules/GUNSC/private/c/src/GU_transformations.c:60-65 | the integer quarter turn takes no source pixel twice |
| Rotation.TurnRowInto | PAN/Modules/GUNSC/private/c/src/GU_transformations.c:60-65 | one row of the double loop, for any dimensions: a cell that some pixel so far is written to holds the last of them, any other what the copy was made with |
| Rotation.TargetInside | PAN/Modules/GUNSC/private/c/src/GU_transformations.c:60-65 | for 90, 270 and -90 degrees every computed position lies in the block, whatever its dimensions |
| Rotation.ScatteredIsTurned | PAN/Modules/GUNSC/private/c/src/GU_transformations.c:60-67 | where the formula permutes the pixels, the copy ends as the exact quarter turn, whatever it was made with |
| Rotation.LastCellWrittenIff | PAN/Modules/GUNSC/private/c/src/GU_transformations.c:60-65 | the last cell of the turned block is written to if and only if the formula permutes the pixels |
| Rotation.RotateImage | PAN/Modules/GUNSC/private/c/src/GU_transformations.c:41-71 | for 90, 270 and -90 degrees and any dimensions the block becomes the copy as the loops leave it, with what it was made with in the cells that no pixel is written to; no cell outside the block changes |
| Rotation.TurnedAt | PAN/Modules/GUNSC/private/c/src/GU_transformations.c:60-65 | the quarter turn sends pixel (y, x) to row x, column nrows-1-y for 90 degrees and to row ncols-1-x, column y for 270 |
| Rotation.TurnBack | PAN/Modules/GUNSC/private/c/src/GU_transformations.c:41-71 | 90 then 270 on the transposed block, and 270 then 90, are the identity |
| Rotation.TwoTurnsReverse | PAN/Modules/GUNSC/private/c/src/GU_transformations.c:41-71 | two quarter turns of 90 reverse the pixel order |
| Rotation.FourTurns | PAN/Modules/GUNSC/private/c/src/GU_transformations.c:41-71 | four quarter turns of 90 are the identity |
| Unscramble.CopyForward | PAN/Modules/GUNSC/private/c/src/GU_algors.c:610-615 | the LL loop stores every stride-th raw pixel in reading order and writes nothing else |
| Unscramble.CopyBackward | PAN/Modules/GUNSC/private/c/src/GU_algors.c:617-622 | the UR loop stores the channel reversed and writes nothing else |
| Unscramble.CopyMirroredRows | PAN/Modules/GUNSC/private/c/src/GU_algors.c:624-637 | the LR loops reverse each row of the channel; pixels after the last whole row keep their old contents |
| Unscramble.CopyRaisedRows | PAN/Modules/GUNSC/private/c/src/GU_algors.c:638-655 | the UL loops stack the rows from the last to the first; cells before the first whole row keep their old contents |
| Unscramble.UnscrambleAmp | PAN/Modules/GUNSC/private/c/src/GU_algors.c:602-656 | whichever branch the type selects, the amplifier's block becomes its unscrambled channel and every other cell of the image stays |
| Unscramble.PlaceChannel | PAN/Modules/GUNSC/private/c/src/GU_algors.c:602-659 | one pass of the loop over channels: unscramble, then turn in place when the amplifier is rotated, whether or not the formula can turn the chunk exactly |
| Unscramble.UnscrambleImage | PAN/Modules/GUNSC/private/c/src/GU_algors.c:572-660 | the whole call, for chunks of any size: the image after every channel has been placed at the block its map entry names, and the block starts handed on |
| Unscramble.StoredAngleTurnsIff | PAN/Modules/GUNSC/private/c/src/GU_algors.c:454-475 | of the angles the table stores, the rotation formula can turn a block by all but -270, and only for even or single dimensions; a requested -270 is stored as it is |
| Unscramble.EveryWholePart | PAN/Modules/GUNSC/private/c/src/GU_algors.c:591-591 | the share of an amplifier is the largest number of pixels that all amplifiers have in the chunk |
| Unscramble.TurnableBlock | PAN/Modules/GUNSC/private/c/src/GU_algors.c:657-658 | a chunk that the formula can turn leaves a block that is unscrambled and exactly turned, whatever the copy was made with |
| Unscramble.EveryBlockPlaced | PAN/Modules/GUNSC/private/c/src/GU_algors.c:602-659 | with a one-to-one channel map every block ends as its own channel, unscrambled over what that block held before the call and turned by the formula where the amplifier is rotated, whatever the order of the channels |
| Unscramble.BlockUntouched | PAN/Modules/GUNSC/private/c/src/GU_algors.c:602-607 | a block no channel maps to keeps its contents |
| Subimage.PasteAt | PAN/Modules/GFITS/private/c/src/GfitsLib.c:1355-1373 | reference meaning of adding a subimage: covered pixels show the subimage, all others the old image |
| Subimage.AddSubimage | PAN/Modules/GFITS/private/c/src/GfitsLib.c:1355-1373 | the row loop lays the subimage over the image at the given one-based position; all other cells of the buffer stay, including those around the image |
| SingleImage.SingleWriter.SetUp | PAN/Modules/GFITS/private/c/src/GfitsLib.c:542-628 | the box that BoxSides and LeastBox settle, the amplifiers, count and image that StartOfFrame settles, and nothing else of the writer changed |
| SingleImage.BoxHolds | PAN/Modules/GFITS/private/c/src/GfitsLib.c:575-583 | every kept amplifier lies inside the computed bounding box |
| SingleImage.BoxSides | PAN/Modules/GFITS/private/c/src/GfitsLib.c:551-586 | for every table each side of the box is the side of some kept amplifier or the value the search starts from, and never beyond that value |
| SingleImage.SidesAreKept | PAN/Modules/GFITS/private/c/src/GfitsLib.c:575-583 | once the search has seen kept amplifiers, all four sides of the box are sides of kept amplifiers |
| SingleImage.LeastBox | PAN/Modules/GFITS/private/c/src/GfitsLib.c:575-583 | the box is the least one: every box that holds the kept amplifiers contains it |
| SingleImage.StartOfFrame | PAN/Modules/GFITS/private/c/src/GfitsLib.c:585-626 | starting a frame resets the count, keeps file and plane count, puts the kept amplifiers with an upper bit above their block, and clears the image exactly when the mode or the box has changed |
| SingleImage.ChunkOfAmp | PAN/Modules/GFITS/private/c/src/GfitsLib.c:1534-1566 | for one amplifier and every value of its discard flag: which pixels of the image its chunk sets, and to what, and where the amplifier stands afterwards |
| SingleImage.EmptyCall | PAN/Modules/GFITS/private/c/src/GfitsLib.c:1499-1531 | a call without pixels changes nothing |
| SingleImage.LongCall | PAN/Modules/GFITS/private/c/src/GfitsLib.c:1499-1531 | a call with more pixels than the frame has does what a call with the whole frame does |
| SingleImage.LastCall | PAN/Modules/GFITS/private/c/src/GfitsLib.c:1567-1593 | the call that completes a frame writes its plane, and starts the next one exactly when the file is a cube |
| SingleImage.SingleWriter.WriteAmp | PAN/Modules/GFITS/private/c/src/GfitsLib.c:1535-1550 | lower amplifiers are copied then grow upwards, upper ones step down and are then copied; only this amplifier's rows of the image and its position change |
| SingleImage.SingleWriter.WriteImage | PAN/Modules/GFITS/private/c/src/GfitsLib.c:1499-1593 | one call: excess pixels cut, every kept amplifier's chunk in place, and on the last pixel of a frame the file plane written and the writer armed for the next frame |
| FrameAssembly.OwnerIsUnique | PAN/Modules/GFITS/private/c/src/GfitsLib.c:1534-1566 | of pairwise disjoint amplifiers only one can own a pixel of the focal plane |
| FrameAssembly.DataPixel | PAN/Modules/GUNSC/private/c/src/GU_algors.c:602-656 | pixel (r, c) of amplifier a's block after unscrambling a chunk is exactly the raw pixel of its read channel that the corner names, whatever the channel permutation and the old buffer contents |
| FrameAssembly.BoundingBoxSuffices | PAN/Modules/GFITS/private/c/src/GfitsLib.c:574-583 | after any number of finished rows and for any next chunk, every row copy stays inside the bounding box and inside the data buffer |
| FrameAssembly.ChunkPixel | PAN/Modules/GFITS/private/c/src/GfitsLib.c:1534-1550 | after the first n amplifiers' copies a pixel holds new data if its owner is among them and its read-out row lies in this chunk, and is unchanged otherwise |
| FrameAssembly.ChunkAssembles | PAN/Modules/GFITS/private/c/src/GfitsLib.c:1534-1550 | one chunk of h rows takes the image with d finished rows to the image with d + h finished rows |
| FrameAssembly.ChunkStep | PAN/Modules/GFITS/private/c/src/GfitsLib.c:1531-1588 | unscrambling and writing a chunk keeps the frame invariant (positions, read count, image), and the last chunk leaves the completed-frame state with ystart and the read count back at their start values |
| FrameAssembly.FrameLands | PAN/Modules/GFITS/private/c/src/GfitsLib.c:1531-1588 | end to end: for every split of the frame into chunks of whole rows and any contents of the image buffer, the final state is the same completed frame |
| FrameAssembly.FinishedPixel | PAN/Modules/GFITS/private/c/src/GfitsLib.c:1534-1583 | in the completed frame pixel (y, x) of a kept amplifier's read channel lies exactly where the amplifier's corner type and origin put it |
| FocalPlane.BoxIsPlane | PAN/Modules/GFITS/private/c/src/GfitsLib.c:575-613 | when the kept amplifiers fill a rectangle the image is exactly that rectangle: its columns are the width and its size is width times height |
| FocalPlane.PlanePixel | PAN/Modules/GFITS/private/c/src/GfitsLib.c:1534-1583 | on a filled plane pixel (y, x) of channel i, raw pixel i + (y * ncols + x) * namps, lies in the cell (row - first row) * width + (column - first column) that the corner and origin give |
| FocalPlane.EveryCellShown | PAN/Modules/GFITS/private/c/src/GfitsLib.c:1534-1583 | a filled plane has no background: every cell of the image shows a raw pixel of a kept amplifier |
| FocalPlane.PixelAtInjective | PAN/Modules/GFITS/private/c/src/GfitsLib.c:1534-1583 | no two raw pixels of kept amplifiers share a cell |
| FocalPlane.ImagePermutes | PAN/Modules/GFITS/private/c/src/GfitsLib.c:1531-1588 | with nothing discarded the image of a filled plane is a permutation of the raw frame, and has exactly its size |
| FrameAssembly.UncoveredPixel | PAN/Modules/GFITS/private/c/src/GfitsLib.c:1534-1566 | a pixel no kept amplifier shows keeps the background |
| FrameAssembly.KeptAmpGivesBox | PAN/Modules/GFITS/private/c/src/GfitsLib.c:575-586 | one kept amplifier suffices for an image that has pixels |
| FrameAssembly.SetUpIsReady | PAN/Modules/GFITS/private/c/src/GfitsLib.c:542-628 | set-up with the external amplifier table leaves the writer ready for a frame, with a cleared image whenever the mode or the box changed |
| FrameAssembly.FrameOverFrame | PAN/Modules/GFITS/private/c/src/GfitsLib.c:604-626 | re-using the image buffer without clearing it is harmless: a second frame over the first shows what it would show over the first background |
| FrameAssembly.AcquireFrame | PAN/Modules/GFITS/private/c/src/GfitsLib.c:1499-1593 | a whole frame takes a ready writer to a ready writer, one plane further |
| FrameAssembly.CubeLands | PAN/Modules/GFITS/private/c/src/GfitsLib.c:1570-1588 | over any number of frames, each split in its own way, every plane of the file is the image of its own frame and no earlier plane is touched again |
| Extensions.ExtensionWriter.AddRotated | PAN/Modules/GFITS/private/c/src/GfitsLib.c:1453-1463 | a rotated chunk lands in its column run of the amplifier's own buffer and nowhere else |
| Extensions.ExtensionWriter.WriteBlock | PAN/Modules/GFITS/private/c/src/GfitsLib.c:1426-1474 | one amplifier's pass: upright chunks go to their element range of the extension, rotated ones to the buffer, which is written once when the amplifier is complete |
| Extensions.ChunkOfWhole | PAN/Modules/GUNSC/private/c/src/GU_algors.c:602-656 | unscrambling a chunk gives the rows of the whole unscrambled amplifier that the corner type assigns to it |
| Extensions.RotatedChunk | PAN/Modules/GUNSC/private/c/src/GU_algors.c:657-658 | a rotated chunk that the formula can turn is a run of columns of the whole amplifier, unscrambled and turned once |
| Extensions.ChunkKeepsJunk | PAN/Modules/GUNSC/private/c/src/GU_algors.c:657-658 | in any other rotated chunk the last cell of the block is what the copy was made with |
| Extensions.FirstElement | PAN/Modules/GFITS/private/c/src/GfitsLib.c:1434-1446 | upright chunks are written from the front for lower amplifiers and from the back for upper ones, exactly where their rows belong |
| Extensions.ChunkStep | PAN/Modules/GFITS/private/c/src/GfitsLib.c:1426-1468 | every chunk, turned exactly or not, moves the column and the element count on and leaves finished rows as they are; a chunk that is turned exactly finishes its own rows with the pixels of the whole image |
| Extensions.RunEnds | PAN/Modules/GFITS/private/c/src/GfitsLib.c:1426-1468 | for every split every element is read exactly once, and rows once finished never change again |
| Extensions.ExtensionLands | PAN/Modules/GFITS/private/c/src/GfitsLib.c:1426-1468 | for all four corner types, upright or turned by 90 or 270, and every split into chunks that need no turning or are turned exactly, the extension ends as the whole amplifier unscrambled and turned in one piece |
| Extensions.ExtensionLandsIff | PAN/Modules/GFITS/private/c/src/GfitsLib.c:1426-1468 | a split lands so if and only if every chunk needs no turning or is turned exactly, provided that what the copies of the other chunks were made with does not happen to be the right pixel |
| Extensions.NewExtension | PAN/Modules/GFITS/private/c/src/GfitsLib.c:542-572 | set-up starts every amplifier, rotated or not, in the column from which the first chunk is placed |
| Extensions.FinalPixel | PAN/Modules/GFITS/private/c/src/GfitsLib.c:1433-1468 | the finished extension shows each read pixel where the corner type and then the angle put it |
| Extensions.ChannelOfRun | PAN/Modules/GUNSC/private/c/src/GU_algors.c:602-609 | a row-aligned run of the interleaved raw stream is the same run of every channel |
| Extensions.ChunkFromRaw | PAN/Modules/GUNSC/private/c/src/GU_algors.c:602-659 | the block the unscrambler hands over for a chunk of the raw stream is the chunk block that ExtensionLands assumes |
| ExtensionFrames.GivenBlock | PAN/Modules/GUNSC/private/c/src/GU_algors.c:602-659 | every amplifier is given the chunk block of its own read channel, for chunks of any size and whatever the channel permutation |
| ExtensionFrames.WriteAll | PAN/Modules/GFITS/private/c/src/GfitsLib.c:1426-1474 | one call for all amplifiers: every kept one moves on by the chunk's rows, discarded ones are not written |
| ExtensionFrames.RunFrameIsRun | PAN/Modules/GFITS/private/c/src/GfitsLib.c:1426-1474 | in a whole frame each amplifier's writer runs through its own chunks as if it were alone |
| ExtensionFrames.DiscardedStays | PAN/Modules/GFITS/private/c/src/GfitsLib.c:1427-1473 | a discarded amplifier's extension is never written |
| ExtensionFrames.FrameLands | PAN/Modules/GFITS/private/c/src/GfitsLib.c:1426-1474 | end to end in multi-extension mode: for every split of the raw frame into whole rows in which the chunks of a rotated amplifier can be turned exactly, and any contents of the image buffer, a kept amplifier's extension ends as its own read channel, unscrambled and turned in one piece |
| ExtensionFrames.FrameLandsIff | PAN/Modules/GFITS/private/c/src/GfitsLib.c:1426-1474 | which splits fail: a kept amplifier's extension ends so if and only if it is upright or every chunk that is not empty can be turned exactly, provided that what the copies were made with does not happen to be the right pixel |
| RequestedImages.WholeImageIsRequested | PAN/Modules/GUNSC/private/c/src/GU_algors.c:454-499 | the request is met: for every type code, flip and angle, except a quarter turn asked for as a negative angle, the stored amplifier's whole image is the plain image of its corner, mirrored as asked and turned by (rotate mod 360) / 90 quarter turns, or by none when rotate is no multiple of 90 |
| RequestedImages.ThreeQuarters | PAN/Modules/GUNSC/private/c/src/GU_transformations.c:41-71 | turning by 270 or -90 degrees is turning three times by 90 |
| RequestedImages.FrameShowsRequest | PAN/Modules/GFITS/private/c/src/GfitsLib.c:1426-1474 | a frame split into chunks that turn exactly ends in every kept extension as the image the caller of GU_add_amp asked for |
| ExtensionFrames.NewFrame | PAN/Modules/GFITS/private/c/src/GfitsLib.c:542-572 | set-up starts all extensions at the first row of a frame, ready for both frame theorems |
| ExtensionFrames.FinishedPixel | PAN/Modules/GFITS/private/c/src/GfitsLib.c:1426-1474 | raw pixel (y, x) of an amplifier's channel lies in the finished extension exactly where its corner and angle put it |
| Pipeline.AcquireChunk | PAN/Modules/GFITS/private/c/src/GfitsLib.c:1499-1593 | single-extension mode, both libraries in sequence: unscrambling a raw chunk and writing it is one step of the runs that FrameAssembly.FrameLands is about |
| Pipeline.WriteMultiple | PAN/Modules/GFITS/private/c/src/GfitsLib.c:1426-1482 | the loop over the amplifiers: every kept one's extension takes its own block, discarded ones stay, and none disturbs another; the header unit of each kept amplifier is its extension number plus 2 minus the amplifiers discarded before it |
| Pipeline.AcquireExtensions | PAN/Modules/GFITS/private/c/src/GfitsLib.c:1385-1486 | multi-extension mode, both libraries in sequence, for chunks of any size: unscrambling a raw chunk and writing it is one step of the runs that ExtensionFrames.FrameLands is about, and each kept amplifier goes to its own header unit number |
| ExtensionNumbers.InOrderFills | PAN/Modules/GFITS/private/c/src/GfitsLib.c:1425-1437 | with extension numbers in their first order no two kept amplifiers share a header unit, and each has one of the units from 2 on, as many as there are kept amplifiers |
| ExtensionNumbers.EveryUnitUsed | PAN/Modules/GFITS/private/c/src/GfitsLib.c:1425-1437 | and each of these units belongs to a kept amplifier |
| ExtensionNumbers.NothingDiscardedIff | PAN/Modules/GFITS/private/c/src/GfitsLib.c:1425-1437 | with nothing discarded no unit is shared if and only if no number is given twice |
| ExtensionNumbers.AlwaysApartIff | PAN/Modules/GFITS/private/c/src/GfitsLib.c:1286-1308 | an order of numbers shares no unit for any choice of discarded amplifiers if and only if no later number exceeds or equals an earlier one by less than their distance |
| ExtensionNumbers.ReorderedShare | PAN/Modules/GFITS/private/c/src/GfitsLib.c:1425-1437 | an order that shares: with numbers 0, 2, 1 and the middle amplifier discarded, the other two write to the same unit |
| Detectors.GetDet | PAN/Modules/GUNSC/private/c/src/GU_algors.c:376-386 | the first detector with the number, or -1 exactly when none has it |
| Detectors.DoDetExtensions | PAN/Modules/GUNSC/private/c/src/GU_algors.c:1229-1269 | succeeds if and only if every amplifier names a known detector; with equal shares of the buffer for all detectors it holds the blocks of the amplifiers before the first unknown one, each pasted at its position in its own detector |
| Detectors.BlendAmp | PAN/Modules/GUNSC/private/c/src/GU_algors.c:1249-1263 | one pass of the loop: an amplifier of a known detector is pasted at its place in that detector, one of an unknown detector changes nothing |
| Detectors.PixelCellInjective | PAN/Modules/GUNSC/private/c/src/GU_algors.c:1249-1261 | when the amplifiers tile the detectors, different raw pixels end in different cells |
| Detectors.EveryCellIsWritten | PAN/Modules/GUNSC/private/c/src/GU_algors.c:1249-1261 | every cell of the detector buffer is the cell of some raw pixel |
| Detectors.FullFrameBlends | PAN/Modules/GUNSC/private/c/src/GU_algors.c:1249-1263 | for tiled detectors no amplifier is rejected and every paste stays inside its own detector |
| Detectors.BlendedCell | PAN/Modules/GUNSC/private/c/src/GU_algors.c:1249-1261 | a cell, once its own amplifier has been blended, keeps that amplifier's pixel however many others follow |
| Detectors.BlendedPixel | PAN/Modules/GUNSC/private/c/src/GU_algors.c:602-670 | a whole frame, unscrambled and blended: raw pixel (y, x) of an amplifier's channel ends in its detector cell, whatever the buffers held |
| Detectors.PixelCellInNumbers | PAN/Modules/GUNSC/private/c/src/GU_algors.c:1249-1263 | that cell in numbers: the detector's share of the buffer, then row times the detector's width plus column, counted from the detector's own origin |
| Detectors.EveryRawPixel | PAN/Modules/GUNSC/private/c/src/GU_algors.c:602-609 | every raw pixel is a pixel of some amplifier's read channel |
| Detectors.CellsPermute | PAN/Modules/GUNSC/private/c/src/GU_algors.c:1249-1261 | the detector cells of the raw pixels are all cells, each once |
| Detectors.BlendingPermutes | PAN/Modules/GUNSC/private/c/src/GU_algors.c:1229-1269 | when the amplifiers tile the detectors, the frame has exactly as many pixels as the detectors, each detector's share of the buffer is its own size, and the detector buffer holds every raw pixel exactly once |
| Sections.SectionMoves | PAN/Modules/GUNSC/private/c/src/GU_algors.c:994-1069 | reordering moves every pixel of a section to the same place of that section's new run |
| Sections.RowIsPermuted | PAN/Modules/GUNSC/private/c/src/GU_algors.c:1178-1184 | an order that names each section once loses and repeats no pixel of a row |
| Sections.KeepsIffNatural | PAN/Modules/GUNSC/private/c/src/GU_algors.c:994-1069 | a row of different pixels is left alone if and only if the order is (pre, dat, pos) on the left side or (pos, dat, pre) on the right side |
| Sections.OtherSideUndoes | PAN/Modules/GUNSC/private/c/src/GU_algors.c:994-1069 | putting a row in the other side's order and reordering it again with that side's routines restores it |
| Sections.CopySection | PAN/Modules/GUNSC/private/c/src/GU_algors.c:994-1069 | each of the six column copies takes exactly its section of the row, for left and right layouts |
| Sections.ArrangeAmp | PAN/Modules/GUNSC/private/c/src/GU_algors.c:1178-1185 | the row loop and the copy back replace the amplifier's block by its reordered rows and change no other cell |
| Sections.ArrangedAt | PAN/Modules/GUNSC/private/c/src/GU_algors.c:1178-1184 | rows stay where they are: each row of the result is the reordering of the same row |
| Sections.RearrangeSections | PAN/Modules/GUNSC/private/c/src/GU_algors.c:1154-1220 | the buffer after all amplifiers: the columns of every row, left ones by the left routines when those are enabled and all others by the right ones, and then in whole frames the rows, lower ones by the lower routines and all others by the upper ones |
| Sections.RowsOfFrame | PAN/Modules/GUNSC/private/c/src/GU_algors.c:1076-1147 | reordering the rows of a whole frame moves each row section as one run to its place in the order |
| Sections.EveryAmpArranged | PAN/Modules/GUNSC/private/c/src/GU_algors.c:1176-1210 | each amplifier's block is reordered from its own contents only, whatever happens to the others |
| Sections.EveryAmpIsPermuted | PAN/Modules/GUNSC/private/c/src/GU_algors.c:1176-1210 | each amplifier keeps exactly its own pixels, with column and row sections reordered |
| Sections.ReadoutOrderKeeps | PAN/Modules/GUNSC/private/c/src/GU_algors.c:1176-1210 | with every enabled side in its read-out order the whole buffer is left as it was |
| Sections.RightAloneMovesLeftRows | PAN/Modules/GUNSC/private/c/src/GU_algors.c:1178-1195 | with only the right routines enabled a left amplifier's row is kept exactly by the right side's read-out order: the else branch serves left amplifiers too |
| Sections.ColumnMoves | PAN/Modules/GUNSC/private/c/src/GU_algors.c:1178-1195 | for every amplifier, row and column section: which side's routine and order serve it, from which column of the row each pixel comes and to which it goes, and that nothing moves otherwise |
| Sections.RowsMove | PAN/Modules/GUNSC/private/c/src/GU_algors.c:1196-1212 | the same for the row sections of a whole frame |
| Allocator.RequestIsRounded | PAN/Modules/buffermgr/private/c/src/allocator.c:110-117 | a request is rounded up to the next page, and becomes empty exactly when the unsigned arithmetic wraps to 0 |
| Allocator.RequestInPages | PAN/Modules/buffermgr/private/c/src/allocator.c:110-117 | closed form of a request: a quarter of the kilobytes, rounded up, modulo 2^52, in pages of 4096 bytes |
| Allocator.Ordered | PAN/Modules/buffermgr/private/c/src/allocator.c:72-75 | blocks later in the list start no earlier than earlier ones end |
| Allocator.BlocksDisjoint | PAN/Modules/buffermgr/private/c/src/allocator.c:72-83 | any two blocks of a region are disjoint and inside it |
| Allocator.NothingLost | PAN/Modules/buffermgr/private/c/src/allocator.c:72-83 | block sizes plus gap sizes equal the region size |
| Allocator.FirstFitIsLowest | PAN/Modules/buffermgr/private/c/src/allocator.c:120-142 | with a list node available an allocation fails if and only if no page-sized free range is large enough, and otherwise returns the lowest one |
| Allocator.InsertKeepsRegion | PAN/Modules/buffermgr/private/c/src/allocator.c:134-138 | linking the new block after the found node keeps the list a sorted partition and adds exactly its size |
| Allocator.FreeKeepsRegion | PAN/Modules/buffermgr/private/c/src/allocator.c:149-165 | unlinking a live block keeps the sorted partition and gives back exactly its size |
| Allocator.AllocateThenFree | PAN/Modules/buffermgr/private/c/src/allocator.c:107-165 | freeing the address just returned restores the identical list if and only if the request was for nothing or no client held that address before |
| Allocator.EveryRunRestores | PAN/Modules/buffermgr/private/c/src/allocator.c:107-169 | in every state reached by requests for memory and releases of live addresses, only the sentinels are empty, and allocating and freeing again restores the identical list |
| Allocator.EmptyRequestSpoilsRestoring | PAN/Modules/buffermgr/private/c/src/allocator.c:107-165 | after one request for nothing, a client that asks for a page and frees it has freed the empty block instead |
| Allocator.FreeKeepsRegionIff | PAN/Modules/buffermgr/private/c/src/allocator.c:149-165 | a release keeps the list in order if and only if the address is held or is not the tail's |
| Allocator.FreeThenAllocate | PAN/Modules/buffermgr/private/c/src/allocator.c:107-165 | after freeing a block any request no larger than it succeeds, at its address or a lower one |
| Allocator.StepKeepsRegion | PAN/Modules/buffermgr/private/c/src/allocator.c:107-169 | every allowed request or release keeps the region invariant |
| Allocator.EveryRunIsSafe | PAN/Modules/buffermgr/private/c/src/allocator.c:107-169 | after any run of requests and releases of live addresses the list is a sorted partition of the region into whole pages, all starting on a page from its start, and no byte is lost |
| Allocator.DmaAllocator.Init | PAN/Modules/buffermgr/private/c/src/allocator.c:216-245 | set-up succeeds if and only if memory and both list nodes were found; the list is then the two empty sentinels at the ends of the region, and otherwise it is not touched |
| Allocator.DmaAllocator.FindGap | PAN/Modules/buffermgr/private/c/src/allocator.c:120-124 | the search stops at the first node with enough room behind it, or at the last node |
| Allocator.DmaAllocator.FindBefore | PAN/Modules/buffermgr/private/c/src/allocator.c:147-155 | the search stops in front of the first node after the head with the address, or at the last node |
| Allocator.DmaAllocator.LinkAfter | PAN/Modules/buffermgr/private/c/src/allocator.c:134-138 | pointer surgery: the node list with the new node inserted, all other nodes and their order unchanged |
| Allocator.DmaAllocator.UnlinkAfter | PAN/Modules/buffermgr/private/c/src/allocator.c:154-165 | pointer surgery: the node list without the unlinked node |
| Allocator.DmaAllocator.AllocateDma | PAN/Modules/buffermgr/private/c/src/allocator.c:107-143 | the linked list and the returned address are those of the first-fit specification; the invariant is kept and only the list's own nodes and a fresh one are in it afterwards |
| Allocator.DmaAllocator.FreeDma | PAN/Modules/buffermgr/private/c/src/allocator.c:145-169 | for every address: the first block with it after the head is unlinked and nothing changes when there is none; the invariant is kept if and only if the address was held or is not the tail's |
| MathParser.Parser.ReadOperand | PAN/Modules/Common/private/c/mathparser/MathParserLib.c:58-110 | the first-token branches move the cursor, build the node and raise the error flag as the grammar says, including failed sub-expressions |
| MathParser.Parser.DoParseAt | PAN/Modules/Common/private/c/mathparser/MathParserLib.c:52-141 | the cursor parser with its goto loop equals the recursive definition at every level, terminates on every text with the remaining text as measure, and never lowers the error flag; SumAgrees says which language that is |
| MathParser.Parser.ParseText | PAN/Modules/Common/private/c/mathparser/MathParserLib.c:143-148 | parsing resets cursor and flag and returns the tree, the unread rest and the flag of the grammar |
| MathParser.DoParse | PAN/Modules/Common/private/c/mathparser/MathParserLib.c:52-141 | whatever is parsed, the unread text is no longer than the text, also after a failed sub-expression |
| MathGrammar.SumAgrees | PAN/Modules/Common/private/c/mathparser/MathParserLib.c:52-141 | precedence climbing reads the grammar of sums of products of factors, which has no operator levels: for every text the flag stays down exactly when the grammar finds all operands, and tree and unread text are then the grammar's |
| MathGrammar.ProductAgrees | PAN/Modules/Common/private/c/mathparser/MathParserLib.c:112-141 | the right operand of plus and minus is a product |
| MathGrammar.FactorAgrees | PAN/Modules/Common/private/c/mathparser/MathParserLib.c:96-141 | the right operand of times, divide and power, and the operand of a sign, is a factor: signs, an atom, and a power to the right |
| MathGrammar.AtomAgrees | PAN/Modules/Common/private/c/mathparser/MathParserLib.c:58-96 | an operand without a sign is a number, a name, a call or a parenthesised sum; a closing parenthesis is read when it is there and not missed when it is not |
| MathGrammar.TokenCharacters | PAN/Modules/Common/private/c/mathparser/MathParserLib.c:58-96 | the characters that start and continue numbers and names, blanks and operators |
| MathGrammar.TwoOperators | PAN/Modules/Common/private/c/mathparser/MathParserLib.c:112-141 | between three atoms the second of any two operators goes first if and only if it is a power, or multiplies or divides after a sum or difference |
| MathGrammar.SignAndOperator | PAN/Modules/Common/private/c/mathparser/MathParserLib.c:97-103 | a sign takes the whole of the following operation if and only if that is a power |
| MathGrammar.Parenthesised | PAN/Modules/Common/private/c/mathparser/MathParserLib.c:88-141 | parentheses make an operand of any expression, and an operator between two of them keeps their order |
| MathPrinter.ReadsText | PAN/Modules/Common/private/c/mathparser/MathParserLib.c:112-141 | in any context that needs no parentheses the parser reads the printed text of an expression to its exact end and stands in its operator loop with that tree |
| MathPrinter.RoundTrip | PAN/Modules/Common/private/c/mathparser/MathParserLib.c:52-148 | for every expression, printing with only the parentheses it needs, with any blanks between tokens, and parsing gives back the tree with nothing left and no error; how the printer groups is settled by TwoOperators, SignAndOperator and the two necessity theorems |
| MathParens.HangRightText | PAN/Modules/Common/private/c/mathparser/MathParserLib.c:112-141 | an operand on the left without its parentheses is the text of another expression, in which its last operand has taken the operator |
| MathParens.BareLeftIffFits | PAN/Modules/Common/private/c/mathparser/MathParserLib.c:112-141 | necessity: the text with a bare left operand parses to the expression's tree if and only if the printer writes that operand bare |
| MathParens.HangLeftText | PAN/Modules/Common/private/c/mathparser/MathParserLib.c:52-141 | an operand on the right or under a minus without its parentheses is the text of another expression, in which its first operand has been taken |
| MathParens.BareOperandIffFits | PAN/Modules/Common/private/c/mathparser/MathParserLib.c:52-141 | necessity: the text with a bare right operand, or a bare operand of a minus, parses to the expression's tree if and only if the printer writes it bare |
| MathPrinter.NumberReadIffUnsigned | PAN/Modules/Common/private/c/mathparser/MathParserLib.c:61-66 | a number with an exponent is read as one number if and only if the exponent has no sign |
| MathPrinter.SignedExponentSplits | PAN/Modules/Common/private/c/mathparser/MathParserLib.c:61-66 | with a sign the conversion applies it and the cursor stops at it, so the exponent's digits are added or subtracted once more |
| MathPrinter.BareMarkIsZero | PAN/Modules/Common/private/c/mathparser/MathParserLib.c:61-66 | an exponent mark without digits makes the conversion fail, and the number 0 |
| MathPrinter.SecondPointIsSkipped | PAN/Modules/Common/private/c/mathparser/MathParserLib.c:61-66 | a second point ends the value but is still passed over as part of the number |
| MathEval.ErrorMeansMissing | PAN/Modules/Common/private/c/mathparser/MathParserLib.c:110-117 | the error flag is up if and only if some operator, function or negation of the returned tree has no operand, or there is no tree |
| MathEval.EvDefinedIff | PAN/Modules/Common/private/c/mathparser/MathParserLib.c:152-184 | evaluation follows no null pointer if and only if every operand it visits is there |
| MathEval.NoErrorEvaluates | PAN/Modules/Common/private/c/mathparser/MathParserLib.c:143-184 | totality: a text parsed without error evaluates, in every arithmetic |
| MathEval.CrashesIffError | PAN/Modules/Common/private/c/mathparser/MathParserLib.c:143-184 | in a tree that calls only sin, cos and tan, evaluation follows a null pointer if and only if the parser has raised its flag |
| MathEval.MissingOperandCrashes | PAN/Modules/Common/private/c/mathparser/MathParserLib.c:152-184 | a crashing text: a lone minus raises the flag and evaluating it follows a null pointer |
| MathEval.ErrorMayStillEvaluate | PAN/Modules/Common/private/c/mathparser/MathParserLib.c:172-180 | the converse fails: a call of an unknown function with its argument missing raises the flag and still evaluates |
| MathEval.RoundTripValue | PAN/Modules/Common/private/c/mathparser/MathParserLib.c:143-184 | the text of an expression evaluates, and to the value of its tree, in every arithmetic; what that value is, form by form, is stated in MathValues |
| MathValues.OperatorValue | PAN/Modules/Common/private/c/mathparser/MathParserLib.c:159-163 | the text of an operation, with or without parentheses, is worth power, product, quotient, sum or difference of its operands' own texts, in the order they are written |
| MathValues.TwoOperatorsValue | PAN/Modules/Common/private/c/mathparser/MathParserLib.c:112-164 | the value of three atoms with any two operators between them, grouped as the language groups them |
| MathValues.SignValue | PAN/Modules/Common/private/c/mathparser/MathParserLib.c:164-164 | the text of a sign in front of an expression is worth the negated value of that expression's text |
| MathValues.CallValue | PAN/Modules/Common/private/c/mathparser/MathParserLib.c:172-180 | the text of a call is worth sin, cos or tan of the value of its argument's text, by name, and 0 for every other name |
| MathValues.NameValue | PAN/Modules/Common/private/c/mathparser/MathParserLib.c:165-171 | the name x is worth the variable and every other name 0 |
| MathValues.NumberValue | PAN/Modules/Common/private/c/mathparser/MathParserLib.c:61-66 | a number is worth its decimal value, times the power of ten of its exponent |
| MathEval.Evaluate | PAN/Modules/Common/private/c/mathparser/MathParserLib.c:196-214 | an empty text is refused; otherwise the result is the value of the parsed tree, which MathValues gives, with the flag; the tree is evaluated before the flag is looked at, so evaluation can hit a missing operand: only with the flag up, and always then when all called functions are known |
| Decimals.GetTokenBreak | PAN/Modules/DRV_COMS/private/c/src/c_univ/getLib.c:63-95 | the token and the rest of the line: leading blanks skipped, one break character consumed, the end of the line never passed |
| Decimals.ReadWhole | PAN/Modules/DRV_COMS/private/c/src/c_univ/getLib.c:200-206 | the digit loop yields the value of the longest run of digits |
| Decimals.ReadFraction | PAN/Modules/DRV_COMS/private/c/src/c_univ/getLib.c:208-220 | each digit after the point adds its tenth of the one before: the sum is the run's value over its power of ten |
| Decimals.ReadMantissa | PAN/Modules/DRV_COMS/private/c/src/c_univ/getLib.c:200-223 | whole and fractional part together, and whether any digit was there |
| Decimals.KeptIsClose | PAN/Modules/DRV_COMS/private/c/src/c_univ/getLib.c:297-307 | six truncated decimals lose less than a millionth, towards zero; the value kept is positive, or negative, if and only if the number is at least a millionth from 0 on that side |
| Decimals.PrintParse | PAN/Modules/DRV_COMS/private/c/src/c_univ/getLib.c:148-307 | for every number of magnitude below 2^31, reading its printed form gives a value no larger in magnitude and smaller by less than 10^-6, with the sign kept if and only if the magnitude is at least 10^-6 and 0 otherwise, and leaves the line after the break character |
| Decimals.ListRoundTrip | PAN/Modules/DRV_COMS/private/c/src/c_univ/getLib.c:63-307 | a comma-joined list of such numbers is recovered element by element, and the end of the line is seen exactly after the last |
| Decimals.TokenAtBreak | PAN/Modules/DRV_COMS/private/c/src/c_univ/getLib.c:63-95 | a token ends at a blank, a tab, a comma, a semicolon or a control character, which is used up; leading blanks and tabs are skipped |
| Decimals.PlainNumberValue | PAN/Modules/DRV_COMS/private/c/src/c_univ/getLib.c:174-223 | every number without an exponent, with or without a sign, a point and a fraction, after any white space and control characters and before any other text |
| Decimals.ExponentNumberValue | PAN/Modules/DRV_COMS/private/c/src/c_univ/getLib.c:228-292 | a number with an exponent in any of its four marks and three signs is scaled by that power of ten; a mark without digits scales nothing |
| Decimals.NoNumberValue | PAN/Modules/DRV_COMS/private/c/src/c_univ/getLib.c:222-223 | a text that starts with neither digit nor point is read as 0 |
| Decimals.PrintedForm | PAN/Modules/DRV_COMS/private/c/src/c_univ/getLib.c:297-307 | the printed form: a blank or a minus, an integer without leading zeros, a point and six digits |
| Digits.Places | PAN/Modules/DRV_COMS/private/c/src/c_univ/getLib.c:200-206 | place value: a further digit multiplies what stands before it by ten |
| Digits.FractionPlaces | PAN/Modules/DRV_COMS/private/c/src/c_univ/getLib.c:208-220 | a fraction is worth its digits over as many tens |
| Readout.HalfwayIsSafeIff | PAN/Modules/SDSU/private/c/src/astroIIILib.c:941-981 | between the copy and the publication the reader is safe if and only if what has just been copied is the frame's |
| Readout.PublishingIsSafeIff | PAN/Modules/SDSU/private/c/src/astroIIILib.c:975-990 | publishing what has been copied keeps the reader safe |
| Readout.PublishingFirstIsUnsafe | PAN/Modules/SDSU/private/c/src/astroIIILib.c:971-990 | in the other order the reader would announce a buffer that is not there yet |
| Readout.StepIsSafeIff | PAN/Modules/SDSU/private/c/src/astroIIILib.c:941-991 | one pass of the polling loop keeps the copied prefix equal to the frame, and publishes no more than was copied, if and only if what it copies is the frame's |
| Readout.InPassStep | PAN/Modules/SDSU/private/c/src/astroIIILib.c:941-991 | a look at a monotone transfer keeps the reader safe and less than a display buffer behind what it has seen |
| Readout.EveryReadoutIsSafe | PAN/Modules/SDSU/private/c/src/astroIIILib.c:941-993 | publish after copy: over any number of looks at arbitrary points of a monotone transfer, the destination agrees with the frame up to oldpix, before completion the published buffers lie inside that prefix, and on success the whole frame is there; also when looks come in the next pass over the DMA buffer, unless that has replaced more than the reader had seen |
| Readout.OvertakenIff | PAN/Modules/SDSU/private/c/src/astroIIILib.c:961-981 | a look in the next pass keeps the reader safe if and only if the later frame's pixels beyond the copied ones are too few to be copied |
| Readout.ReadoutIsSafeIff | PAN/Modules/SDSU/private/c/src/astroIIILib.c:941-993 | over a whole readout whose last looks come in the next pass, with a later frame that differs everywhere: it is safe if and only if no such look shows so much of the later frame that the reader, from where it stood after its last look in time, would copy some of it |
| Readout.OvertakenReadout | PAN/Modules/SDSU/private/c/src/astroIIILib.c:961-986 | a readout that is overtaken: it reports a complete frame made of two |
| Readout.EarlyCountIsTaken | PAN/Modules/SDSU/private/c/src/astroIIILib.c:243-258 | a counter below the start of the frame's slot completes the frame at once with whatever is in memory |
| Readout.EndOfFrameIsEarlyIff | PAN/Modules/SDSU/private/c/src/astroIIILib.c:491-503 | a counter that still stands at the end of the frame before lies below the next slot if and only if the frame size is no multiple of 512 |
| Readout.PublishedChunkIsValid | PAN/Modules/SDSU/private/c/src/astroIIILib.c:1230-1248 | every chunk handed out for a published buffer number already holds the frame's own pixels |
| Readout.PublishedIsBounded | PAN/Modules/SDSU/private/c/src/astroIIILib.c:971-990 | no more buffers are published than a frame has |
| Readout.FrameReader.WaitForProgress | PAN/Modules/SDSU/private/c/src/astroIIILib.c:931-938 | the wait takes looks while the frame's progress equals the buffer's counter, 30000 at most, and uses up the look that ends it |
| Readout.FrameReader.ReadFrame | PAN/Modules/SDSU/private/c/src/astroIIILib.c:931-993 | after the wait the polling loop over one frame equals the run of the step machine, whose every look Completion describes, returns its status, and moves to the next slot only on success |
| Completion.CompletesIff | PAN/Modules/SDSU/private/c/src/astroIIILib.c:941-988 | a look completes the readout if and only if it does not give up and its counter lies outside the frame's slot or, in the last slot, in front of what has been copied; then the memory's pixels from the copied ones on are in the destination and all buffers are published |
| Completion.OtherLooks | PAN/Modules/SDSU/private/c/src/astroIIILib.c:943-981 | every other look gives up after 3001 equal ones, returns the driver's error, copies and publishes what is new when it is a display buffer's worth, or changes nothing |
| Completion.LooksAreCounted | PAN/Modules/SDSU/private/c/src/astroIIILib.c:943-955 | equal looks are counted, and a different one starts the count again |
| Completion.CompleteIff | PAN/Modules/SDSU/private/c/src/astroIIILib.c:941-993 | a whole readout is complete if and only if a look that it reaches completes it |
| Completion.StillReading | PAN/Modules/SDSU/private/c/src/astroIIILib.c:941-993 | a reader that is still reading has seen no error, no whole frame and no stall |
| Completion.TransferIsRead | PAN/Modules/SDSU/private/c/src/astroIIILib.c:941-993 | over a monotone transfer that did not overtake the reader: a look at the whole frame ends the readout, a completing look makes it complete, and complete means that the destination is the frame and all its buffers are published |
| Completion.StallEnds | PAN/Modules/SDSU/private/c/src/astroIIILib.c:943-955 | 3001 looks at a counter that stands still are waited for, and the next one ends the readout |
| Completion.WaitEnds | PAN/Modules/SDSU/private/c/src/astroIIILib.c:931-938 | the wait before the first pass takes the first look at another counter, or look 30001, whichever comes first |
| Completion.ChunksTileFrame | PAN/Modules/SDSU/private/c/src/astroIIILib.c:1230-1248 | the chunks handed out for the buffers of a frame follow each other from its first pixel to its last |
| Readout.FrameReader.UpdateFrameInfo | PAN/Modules/SDSU/private/c/src/astroIIILib.c:491-503 | the next slot starts at the next multiple of 512, or at 0 once the buffer is full |
| Readout.FrameOffset | PAN/Modules/SDSU/private/c/src/astroIIILib.c:491-503 | after k frames the offset is the slot number k mod framesPerBuffer times the frame size rounded up to 512 |
| Readout.FramesApart | PAN/Modules/SDSU/private/c/src/astroIIILib.c:491-503 | frames of one pass over the buffer never share a pixel |
| Coadd.CountNext | PAN/Modules/Logical/private/c/src/LogicLib.c:159-171 | the three counters are the mixed-radix digits of the pixel count, before and after every pixel |
| Coadd.StreamSplits | PAN/Modules/Logical/private/c/src/LogicLib.c:159-171 | splitting the stream over calls changes nothing |
| Coadd.StreamClosedForm | PAN/Modules/Logical/private/c/src/LogicLib.c:159-171 | each accumulator has grown, modulo the word size, by exactly the stream pixels k with (k / (nchann * nsamples)) * nchann + k % nchann equal to its number |
| CoaddCalls.CallsAreOneStream | PAN/Modules/Logical/private/c/src/LogicLib.c:143-173 | 16-bit pixels: after any sequence of calls the accumulators are those of one call with all pixels |
| CoaddCalls.CallsAddTaken | PAN/Modules/Logical/private/c/src/LogicLib.c:175-205 | 32-bit pixels: after any sequence of calls the accumulators are those of one stream of the pixels taken |
| CoaddCalls.SkipsAtLeast | PAN/Modules/Logical/private/c/src/LogicLib.c:175-205 | until a group is complete the calls together skip at least as much as one call would |
| CoaddCalls.CallsTakeStreamIff | PAN/Modules/Logical/private/c/src/LogicLib.c:175-205 | any sequence of calls of the 32-bit version since a reset takes the same pixels as one call with the whole stream if and only if nothing is skipped, the stream is no longer than the skip, only one call has pixels, or the first that has completes a group after its skip |
| Coadd.SlotSumIsSampleSum | PAN/Modules/Logical/private/c/src/LogicLib.c:159-171 | physically these are the nsamples samples of one channel in one group, and no others |
| Coadd.Coadder.Accumulate | PAN/Modules/Logical/private/c/src/LogicLib.c:159-171 | the counter loop equals the stream specification from the current count, and the count advances by the pixels taken |
| Coadd.Coadder.SamplesCoadd16To32 | PAN/Modules/Logical/private/c/src/LogicLib.c:143-173 | all pixels of the call are added at the current count; the computed skip has no effect |
| Coadd.Coadder.SamplesCoadd32To32 | PAN/Modules/Logical/private/c/src/LogicLib.c:175-205 | the pixels after the skip are added at the current count; the skip applies while no group is complete |
| Coadd.FirstGroup | PAN/Modules/Logical/private/c/src/LogicLib.c:186-189 | the global pixel counter is 0, and so the skip applies, exactly while fewer than nsamples * nchann pixels have been added |
| Fowler.SkipSplitsIff | PAN/Modules/Logical/private/c/src/LogicLib.c:175-205 | one call of the 32-bit version takes the same pixels as two calls on the two parts if and only if nothing is skipped, a part is empty, both parts together lie in the skip, or the first call completes a group after its skip |
| Fowler.AddImage | PAN/Modules/Logical/private/c/src/LogicLib.c:352-369 | a frame is added pixel by pixel to the accumulators, those beyond it unchanged |
| Fowler.AddFramesClosedForm | PAN/Modules/Logical/private/c/src/LogicLib.c:352-369 | after n frames each accumulator has grown by the sum of its pixel over the frames, modulo the word size |
| Fowler.Sampler.SamplePixels | PAN/Modules/Logical/private/c/src/LogicLib.c:407-430 | the triple loop equals the counter-driven coadd from reset over the whole groups, inside its own run of accumulators only, and moves the pointer past that run |
| Fowler.GroupsAreAll | PAN/Modules/Logical/private/c/src/LogicLib.c:418-420 | no whole group is left out: fewer pixels than a group are behind the last one |
| Fowler.SampledPixel | PAN/Modules/Logical/private/c/src/LogicLib.c:418-429 | every channel of every whole group in the buffer ends with the sum of its own samples added to what was there, modulo 2^32 |
| Fowler.FinalOffset | PAN/Modules/Logical/private/c/src/LogicLib.c:406-430 | the counter machine over whole groups ends at the offset by which the triple loop moves its pointer, with the other counters at 0 |
| Fowler.SamplesAreFrames | PAN/Modules/Logical/private/c/src/LogicLib.c:380-404 | the samples of a pixel in the line-interleaved stream are its values in the frames |
| Fowler.LinesEqualFrames | PAN/Modules/Logical/private/c/src/LogicLib.c:352-404 | line-by-line sampling of the line-interleaving of n frames equals adding the n frames one after the other |
| Chunks.PieceServer.ReturnDataPointer2 | PAN/Modules/Logical/private/c/src/LogicLib.c:663-701 | one call returns the piece from the remembered position on and remembers the announced end |
| Chunks.BufferBounds | PAN/Modules/Logical/private/c/src/LogicLib.c:624-645 | the buffer count is the rounded-up quotient: only the last buffer may be short, and none starts beyond the capture |
| Chunks.PiecesTile | PAN/Modules/Logical/private/c/src/LogicLib.c:663-701 | for any increasing announcements, whichever were missed, the pieces follow each other without gap or overlap up to what the last one announced |
| Chunks.CaptureIsTiled | PAN/Modules/Logical/private/c/src/LogicLib.c:663-701 | once the last buffer has been announced the pieces tile the capture from its first byte to its last |
| Chunks.PiecesAgree | PAN/Modules/Logical/private/c/src/LogicLib.c:624-701 | when every buffer is polled both functions return the same piece |
| Chunks.PiecesOutside | PAN/Modules/Logical/private/c/src/LogicLib.c:624-701 | no piece before the first buffer or beyond the capture, an empty one exactly at its end; and which end every piece of the second function has |

## Left out

- AddAmp: the detector's read-out type, which is set from a stale table entry.
- RotateImage: direct calls for half turns, and -270 degrees, which writes outside the block.
- TurnRowInto: direct calls for half turns and -270 degrees, as for RotateImage.
- PlaceChannel: amplifiers stored with -270 degrees, as for RotateImage.
- UnscrambleImage: amplifiers stored with -270 degrees, as for RotateImage, and the pixel swap for single amplifiers.
- SetUp: rotated amplifiers in single-extension mode; set-up shifts their origin before it computes the box.
- WriteImage: rotated amplifiers, the region-of-interest copy after a full frame, progress and amplifier counts, and writing from a caller's own buffer.
- WriteBlock: the extension is the amplifier's own array; WriteMultiple says which header unit it is.
- WriteMultiple: every amplifier has an extension array of its own; when two would be the same header unit is said by ExtensionNumbers.
- RearrangeSections: row sections of partial chunks, whose copies read beyond the chunk; and orders that name a section twice, which the code does not reject.
- ReadFrame: the ring of frame records and the outer loop over frames, pixels of other than two bytes, and time itself; the quotients for published counts are exact.
- FrameAssembly: whole frames with negative `discard` values, which set-up and writing treat differently (single chunks: `SingleImage.ChunkOfAmp`), and with a plane count below 1, which does not re-arm the writer (`SingleImage.LastCall`).
- RequestedImages: a quarter turn asked for as a negative angle is stored as -270, which the rotation cannot use.
- Detectors: the detector's own read-out type, and adding detectors.
- Rotation: rounding of the half-integer products, which are exact for image-sized operands.
- Allocator: probing high memory, and what happens after a null pointer has been read.
- MathParser: freeing nodes, and the limits of the name and text buffers; hexadecimal and special numbers, and rounding of decimal numbers.
- MathPrinter: signed exponents inside larger expressions; the single number is settled in both directions.
- MathGrammar: the tree that is left behind when the flag is up is the recursive definition's; the grammar only says that an operand is missing.
- MathParens: necessity is stated for the operands of an expression's outermost operator.
- Decimals: characters beyond ASCII, overflow and underflow of exponents, the 80-character token limit, and rounding in `double`.
- Chunks: the conversion of bytes to elements and 32-bit wrap-around of positions.
- Coadd: the dispatch on bits per pixel with its defaults for non-positive arguments.
- Fowler: LOGIC_fowler_L2L is the loop of LOGIC_fowler_P2P with a row of totcols pixels in place of the amplifiers; one method serves both.
- Null-pointer and allocation failures outside the allocator, image statistics and the floating-point coadds, exposure control, timers, sockets, message queues, drivers and FITS headers are not part of this model.
