# Verified models of the Yoshino device code

A Dafny 4.11 model of the logic-heavy parts of the Sony Yoshino common device tree (display HAL, power HAL, codec,
init), with proofs about every input, every run or every reachable state. `dafny verify dfyconfig.toml` checks it.

Code that only computes is modelled by functions. Code that updates fields or buffers is modelled by classes and by
methods on arrays; each is proved equal to a function of the old state, and the run-level theorems are about those
functions.

| module | models |
|---|---|
| `Align` | the power-of-two `ALIGN` mask that all size computations use, and the arithmetic they share |
| `Yv12Converter` | the three chroma interleaving loops from YV12 to NV21 |
| `StrideConverter` | Android to C2D copies and back, with their buffer sizes |
| `InteractionHandler` | the boost handler: client calls and the worker thread as one interleaved machine |
| `CopybitRects`, `CopybitBatch` | clipping, scaling, rotating and flipping of blits; the request list and its fences |
| `EglImageCache`, `IonCookieCache` | the tone mapper's two-container image cache; its ION variant |
| `LastUsed` | orders of last use, which both caches keep |
| `ModifiedUtf8` | modified UTF-8 and UTF-16 conversion with both length predictors |
| `GrallocLayout` | allocation sizes against plane layouts, and compressed RGB metadata |
| `BufferLifecycle` | reference-counted handles and the descriptors they own |
| `FramebufferSlots` | the framebuffer slot bitmask |
| `PropertyParser` | the in-place property file parser |
| `Wrappers` | absent values |

## What the proofs found

The members named in each line prove it.

- The padded YV12 loop ends if and only if the image has a column or is less than two high; it ends without leaving its
  plane if and only if the image is at least two pixels wide or less than two high (`Yv12Converter.LoopExitsIff`,
  `ExitsInsideIff`).
- Chroma rows are copied to the temporary C2D buffer at the length of the source handle's pitch: they fit if and only if
  that pitch exceeds the image's own by no more than the 32 bytes a row that rounding half the pitch may add and the rest
  of the last page; a 32 by 2 image out of a buffer 4080 wide does not fit (`StrideConverter.C2dFitsIff`,
  `WideHandleOverruns`).
- Hint calls alternate, over any number of lifetimes, if and only if the hint is not requested again after an `Exit`
  that interrupted a busy period; shutting down and restarting does request it twice
  (`InteractionHandler.HintsAlternateIff`, `HintHeldIff`, `RestartDoublesHint`).
- After `Exit` the worker can take four steps of its own if and only if `Exit` finds it about to read the idle file, and
  that happens (`InteractionHandler.FourStepsIff`, `FourStepsHappen`).
- `stretch` accepts a source rectangle whose edges are exchanged. Every request reads inside the source rectangle if and
  only if the edges are in order; a rectangle of a 100-pixel image can ask for 429496724 columns
  (`CopybitBatch.EmittedInsideIff`, `InvertedReadsOutside`).
- A clip over a whole destination always shows the whole source, since the extents `stretch` accepts cannot wrap. A
  destination reaching far beyond the image does wrap, and the selection is exact if and only if its four products fit
  32 bits (`CopybitBatch.WholeStretch`, `FarDestinationWraps`, `CopybitRects.SelectedExactIff`).
- Clips that share an edge show neighbouring parts of the source whenever the destination lies in bounds. Beyond bounds
  two neighbouring clips can show columns 4080 and 1 (`CopybitBatch.StretchColumnsMeet`, `StretchRowsMeet`,
  `FarNeighboursPart`).
- A fill is tested for its size but not for its far edges: it stays inside the image if and only if they do, and one of
  columns 5 to 15 of a ten-column image is accepted (`CopybitBatch.FillInsideIff`, `FillOutside`).
- Flushing an empty blit list drops the acquire fences stored for it, and nothing else drops one without an `ioctl`
  (`CopybitBatch.ApplyForgets`, `NoneForgottenIff`, `FlushDropsFence`).
- The image cache's 64-bit counter is cut to 32 bits: after 2^32 images a live key comes up again and the two containers
  disagree, unless the same call evicts that key's image and its name sorts first (`EglImageCache.KeysRunOut`,
  `MissKeepsIff`).
- `strlen8to16` exceeds what `strcpy8to16` writes by exactly the number of four-byte leads that are cut short or out
  of range, so the buffer is never exceeded (`ModifiedUtf8.LengthPrediction`).
- Standard UTF-8 text survives decoding if and only if it contains neither U+10FFFE nor U+10FFFF, which turn into the
  replacement character (`ModifiedUtf8.TextDecodesIff`).
- A 4:2:0 semi-planar image of odd height fits its allocation if and only if there is a second layer or its extra half
  row fits what the size was rounded up to; 96 by 199 does not (`GrallocLayout.FitsIffRoom`, `OddHeightOverruns`).
- In P010 the red-difference plane starts one byte behind the blue-difference plane although samples have two bytes;
  P010 is the only format whose samples share bytes (`GrallocLayout.EvenImagesLaidOut`).
- A mapping that cannot be removed leaves a handle that names closed descriptors. The libion allocator imports such a
  handle without asking the kernel. No descriptor is closed twice if and only if no such handle is retained again; with
  the older allocator none ever is (`BufferLifecycle.SoundRunIff`, `ClosedOnceIff`, `LegacyClosesOnce`,
  `RevivedClosesTwice`).
- Once all references are given back, every descriptor is closed or with its client if and only if no metadata
  allocation failed after its main allocation and no handle's latest last release failed to unmap the main buffer while
  metadata was open; both happen (`BufferLifecycle.AllReleasedIff`, `LeakingRuns`).
- Every run of the framebuffer allocator is defined and frees the slot that was allocated if and only if the rounding of
  all slots but the last together is below one screen (`FramebufferSlots.ExactIffSound`).
- A pair whose key is `import` with a space behind it is taken for an import: a file gives exactly its pairs and imports
  if and only if it has no such pair or a filter is set (`PropertyParser.RenderedFileParsesIff`, `ImportKeys`).

## Model

| member | source | states |
|---|---|---|
| `Align.MaskRoundsUp` | hardware/qcom-caf/display/gralloc/gr_utils.h:66-69 | the bit-mask form of `ALIGN` is the least multiple of a power of two not below its argument, when the sum does not wrap |
| `Align.MaskClearsLowBits` | hardware/qcom-caf/display/gralloc/gr_utils.h:66-69 | masking with the complement clears exactly the low bits |
| `Yv12Converter.LoopExitsIff` | hardware/qcom-caf/display/libcopybit/software_converter.cpp:97-121 | the four-counter loop, with counters of 32 bits, reaches its end if and only if the width is positive or the height below 2 |
| `Yv12Converter.ExitsInsideIff` | hardware/qcom-caf/display/libcopybit/software_converter.cpp:97-121 | it reaches its end without reading a column outside the plane if and only if the width is at least 2 or the height below 2 |
| `Yv12Converter.StepKeepsInStep` | hardware/qcom-caf/display/libcopybit/software_converter.cpp:99-120 | one turn keeps the destination cursor at twice the number of samples read |
| `Yv12Converter.GeometryFacts` | hardware/qcom-caf/display/libcopybit/software_converter.cpp:51-58 | a chroma plane holds half the rows and its size is a multiple of eight |
| `Yv12Converter.NoWrap` | hardware/qcom-caf/display/libcopybit/software_converter.cpp:51-58 | no size of an image up to 4096 by 4096 is cut to 32 bits |
| `Yv12Converter.PlanesAgree` | hardware/qcom-caf/display/libcopybit/software_converter.cpp:51-60 | for every geometry, also when sizes are cut, the converter finds luma, V and U and their pitches where the allocator's YV12 layout puts them |
| `Yv12Converter.PutPair` | hardware/qcom-caf/display/libcopybit/software_converter.cpp:105-114 | one V and one U byte land at the next two packed places, also when the pair straddles two rows |
| `Yv12Converter.InterleavePadded` | hardware/qcom-caf/display/libcopybit/software_converter.cpp:97-121 | every visible sample is packed in reading order, V before U, and no other byte changes |
| `Yv12Converter.InterleaveScalar` | hardware/qcom-caf/display/libcopybit/software_converter.cpp:82-88 | the flat interleaving of both planes |
| `Yv12Converter.InterleaveEight` | hardware/qcom-caf/display/libcopybit/software_converter.cpp:69-79 | eight lanes of each plane are stored alternately |
| `Yv12Converter.InterleaveLanes` | hardware/qcom-caf/display/libcopybit/software_converter.cpp:63-80 | the eight-lane loop leaves no remainder and equals the scalar loop |
| `Yv12Converter.FastEqualsPadded` | hardware/qcom-caf/display/libcopybit/software_converter.cpp:63-121 | without padding the fast paths and the padded loop give the same buffer |
| `Yv12Converter.ConvertChroma` | hardware/qcom-caf/display/libcopybit/software_converter.cpp:63-121 | every chroma pair of row r and column i sits at its packed place; luma is untouched |
| `Yv12Converter.Convert` | hardware/qcom-caf/display/libcopybit/software_converter.cpp:36-124 | null buffers fail without a write; otherwise, when no 32-bit size is cut, every luma pixel of every row and every chroma pair is in place |
| `StrideConverter.ByteInRow` | hardware/qcom-caf/display/libcopybit/software_converter.cpp:153-169 | after all rows are copied each row shows its source bytes up to the pitch: spills into the next row are overwritten |
| `StrideConverter.ByteOutside` | hardware/qcom-caf/display/libcopybit/software_converter.cpp:153-169 | bytes before the first and after the last row are unchanged |
| `StrideConverter.CopyPlane` | hardware/qcom-caf/display/libcopybit/software_converter.cpp:153-169 | the row loop gives exactly the ordered row-by-row overwrite |
| `StrideConverter.CopySourceToDestination` | hardware/qcom-caf/display/libcopybit/software_converter.cpp:138-171 | null fails without a write; otherwise luma rows, then chroma rows of the source pitch, are copied |
| `StrideConverter.AndroidToC2d` | hardware/qcom-caf/display/libcopybit/software_converter.cpp:228-263 | status and destination for every format, including unsupported ones |
| `StrideConverter.C2dToAndroid` | hardware/qcom-caf/display/libcopybit/software_converter.cpp:182-218 | status and destination for every format, including unsupported ones |
| `StrideConverter.PlaneOffsetIs` | hardware/qcom-caf/display/libcopybit/software_converter.cpp:241-254 | chroma starts right behind the luma rows, and in the encoder format at the least multiple of 2048 not before their end |
| `StrideConverter.LaidOutForC2d` | hardware/qcom-caf/display/libcopybit/copybit_c2d.cpp:455-494 | pitch and chroma offset of a converted image are those C2D computes for its surfaces, and exactly the formats C2D knows are converted |
| `StrideConverter.LaidOutForAndroid` | hardware/qcom-caf/display/libcopybit/software_converter.cpp:182-263 | the Android side has the least pitch that is a multiple of 16, of the handle on the way there and of the image on the way back |
| `StrideConverter.ConvertedLuma` | hardware/qcom-caf/display/libcopybit/software_converter.cpp:153-158 | a converted image shows the source's luma pixels |
| `StrideConverter.ConvertedChroma` | hardware/qcom-caf/display/libcopybit/software_converter.cpp:160-169 | a converted image shows the source's chroma rows up to the smaller pitch |
| `StrideConverter.RoundTrip` | hardware/qcom-caf/display/libcopybit/software_converter.cpp:138-263 | to C2D and back keeps every visible luma byte and every chroma row |
| `StrideConverter.C2dFitsIff` | hardware/qcom-caf/display/libcopybit/copybit_c2d.cpp:963-987 | for a handle of any width, what is written on the way to C2D fits the size computed for the temporary buffer if and only if the height is below 2 or the handle's pitch exceeds the image's by no more than 32 bytes for each two rows, when the pitch is an odd multiple of 32, and the rest of the last page |
| `StrideConverter.WideHandleOverruns` | hardware/qcom-caf/display/libcopybit/copybit_c2d.cpp:933-987 | a 32 by 2 image out of a buffer 4080 wide needs the temporary buffer and does not fit it |
| `StrideConverter.C2dBufferSuffices` | hardware/qcom-caf/display/libcopybit/copybit_c2d.cpp:963-987 | a handle whose 16-aligned width is at most the image's 32-aligned width always fits |
| `StrideConverter.AndroidBufferSuffices` | hardware/qcom-caf/display/gralloc/gr_utils.cpp:250-253 | for any height and any padded width the added byte before page rounding leaves room for the last row's spill on the way back |
| `InteractionHandler.StepKeepsInv` | hardware/power-libperfmgr/InteractionHandler.cpp:51-244 | each step of either thread keeps the protocol invariant |
| `InteractionHandler.RunsKeepInv` | hardware/power-libperfmgr/InteractionHandler.cpp:51-244 | in every interleaving, over any number of lifetimes, the event counter is one exactly when an interaction arrived during the wait, and the worker is where the phase says |
| `InteractionHandler.WaitStartsClean` | hardware/power-libperfmgr/InteractionHandler.cpp:230-244 | no wait starts with an abort left over |
| `InteractionHandler.WorkerOrder` | hardware/power-libperfmgr/InteractionHandler.cpp:185-244 | in every interleaving the worker polls after waking, reads the idle file only after a poll that timed out, polls again only after a file that does not say idle, and releases only after a step that ends the wait |
| `InteractionHandler.WaitEndsInRelease` | hardware/power-libperfmgr/InteractionHandler.cpp:185-244 | after an aborted or failed poll, an idle file that says idle or the second poll, the worker can release and can take no other step |
| `InteractionHandler.WaitStepsInOrder` | hardware/power-libperfmgr/InteractionHandler.cpp:185-228 | the calls one `WaitForIdle` makes, for every answer of the system, are such a sequence |
| `InteractionHandler.HintsAlternateIff` | hardware/power-libperfmgr/InteractionHandler.cpp:77-175 | in every interleaving the hint calls alternate if and only if the hint is not requested again after an Exit that interrupted a busy period |
| `InteractionHandler.HintHeldIff` | hardware/power-libperfmgr/InteractionHandler.cpp:77-175 | until then the hint is held exactly in INTERACTION or WAITING or after such an Exit |
| `InteractionHandler.RestartDoublesHint` | hardware/power-libperfmgr/InteractionHandler.cpp:51-159 | start, interaction, Exit, the worker's end, join, start and interaction is a run and requests the hint twice in a row |
| `InteractionHandler.ExitEndsWorker` | hardware/power-libperfmgr/InteractionHandler.cpp:77-91 | after Exit the worker takes at most four steps and makes no hint call |
| `InteractionHandler.FourStepsIff` | hardware/power-libperfmgr/InteractionHandler.cpp:77-244 | a run ending in Exit can go on with more than three steps of the worker if and only if Exit finds it about to read the idle file |
| `InteractionHandler.FourStepsHappen` | hardware/power-libperfmgr/InteractionHandler.cpp:77-244 | a run in which the worker takes four steps after Exit |
| `InteractionHandler.ExitNeverBlocks` | hardware/power-libperfmgr/InteractionHandler.cpp:77-91 | after Exit the worker can always take a step until it has ended |
| `InteractionHandler.DiffWithinOneMs` | hardware/power-libperfmgr/InteractionHandler.cpp:109-115 | the millisecond difference is off by less than one millisecond for either sign of the nanosecond difference |
| `InteractionHandler.ClampedDuration` | hardware/power-libperfmgr/InteractionHandler.cpp:126-133 | the clamped duration is in range, and is the requested one if and only if the 32-bit sum does not overflow |
| `InteractionHandler.AcquireDeadline` | hardware/power-libperfmgr/InteractionHandler.cpp:117-159 | Acquire never moves the deadline back, and it exceeds the requested time less one millisecond |
| `InteractionHandler.CoveredIff` | hardware/power-libperfmgr/InteractionHandler.cpp:134-146 | Acquire leaves the deadline alone if and only if the handler is busy and elapsed milliseconds and the new duration together do not exceed the old one |
| `InteractionHandler.DeadlineNeverDrops` | hardware/power-libperfmgr/InteractionHandler.cpp:117-159 | within one busy period of any interleaving the deadline never decreases |
| `InteractionHandler.Handler.constructor` | hardware/power-libperfmgr/InteractionHandler.cpp:38-45 | the initial state of every run |
| `InteractionHandler.Handler.Init` | hardware/power-libperfmgr/InteractionHandler.cpp:51-75 | true without effect when initialized, fails when a descriptor cannot be opened, else starts the worker |
| `InteractionHandler.Handler.ExitLocked` | hardware/power-libperfmgr/InteractionHandler.cpp:77-84 | the locked part of Exit is the machine's exit step |
| `InteractionHandler.Handler.Join` | hardware/power-libperfmgr/InteractionHandler.cpp:84-91 | joining and closing resets worker and counter |
| `InteractionHandler.Handler.Acquire` | hardware/power-libperfmgr/InteractionHandler.cpp:117-159 | clamping, the covered test, aborting a wait and requesting the hint are the machine's acquire step |
| `InteractionHandler.Handler.Release` | hardware/power-libperfmgr/InteractionHandler.cpp:161-175 | releases the hint only from WAITING, else clears the abort |
| `InteractionHandler.Handler.RoutineWake` | hardware/power-libperfmgr/InteractionHandler.cpp:230-244 | the worker enters its wait, or ends after Exit |
| `InteractionHandler.Handler.WaitForIdle` | hardware/power-libperfmgr/InteractionHandler.cpp:185-228 | makes the calls that the answers of the system call for and leaves only the release to do |
| `InteractionHandler.ComparesEqual` | hardware/power-libperfmgr/InteractionHandler.cpp:214 | the bounded comparison is the prefix test |
| `InteractionHandler.Handler.AbortWaitLocked` | hardware/power-libperfmgr/InteractionHandler.cpp:178-183 | adds one to the event counter |
| `CopybitRects.IntersectIsMeet` | hardware/qcom-caf/display/libcopybit/copybit.cpp:117-124 | the intersection contains exactly the common points |
| `CopybitRects.MulDiv` | hardware/qcom-caf/display/libcopybit/copybit.cpp:109-114 | both operands are scaled with 32-bit products |
| `CopybitRects.SetRects` | hardware/qcom-caf/display/libcopybit/copybit.cpp:172-227 | fails exactly for an empty clip, else fills both rectangles of the request |
| `CopybitRects.FullAxisIff` | hardware/qcom-caf/display/libcopybit/copybit.cpp:109-114 | a full interval selects the full source axis if and only if nothing is scaled or the product fits 32 bits |
| `CopybitRects.ScaleIsFloorIff` | hardware/qcom-caf/display/libcopybit/copybit.cpp:109-114 | a scaled length is the exact quotient rounded down if and only if nothing is scaled or its product fits 32 bits |
| `CopybitRects.ScaledFollowsIff` | hardware/qcom-caf/display/libcopybit/copybit.cpp:109-114 | neighbouring intervals scale to neighbours at most one apart if and only if their cut products add up without a carry |
| `CopybitRects.SelectedExactIff` | hardware/qcom-caf/display/libcopybit/copybit.cpp:172-227 | for all eight transforms the selected rectangle is the exact one if and only if its four products fit 32 bits |
| `CopybitRects.WholeDestination` | hardware/qcom-caf/display/libcopybit/copybit.cpp:172-227 | a clip equal to the destination selects the whole source rectangle when the extents' products fit 32 bits |
| `CopybitRects.ScaledInside` | hardware/qcom-caf/display/libcopybit/copybit.cpp:109-114 | scaled offset plus scaled size stay in the source axis even when products wrap |
| `CopybitRects.SourceRectInside` | hardware/qcom-caf/display/libcopybit/copybit.cpp:172-227 | for all eight transforms and any scaling the rectangle selected from an upright source lies inside it |
| `CopybitRects.SourceRectIsPreimage` | hardware/qcom-caf/display/libcopybit/copybit.cpp:172-227 | without scaling it is exactly the preimage of the clip under rotating clockwise and then flipping in the destination |
| `CopybitRects.NeighbourColumns` | hardware/qcom-caf/display/libcopybit/copybit.cpp:172-227 | clips sharing a vertical edge give source rectangles that never overlap and are at most one pixel apart if and only if the products up to the edge add up without a carry |
| `CopybitRects.NeighbourRows` | hardware/qcom-caf/display/libcopybit/copybit.cpp:172-227 | the same for a horizontal edge |
| `CopybitRects.NeighbourColumnsMeet` | hardware/qcom-caf/display/libcopybit/copybit.cpp:172-227 | when the products of the extents fit 32 bits, clips sharing a vertical edge always give source rectangles that never overlap and are at most one pixel apart |
| `CopybitRects.NeighbourRowsMeet` | hardware/qcom-caf/display/libcopybit/copybit.cpp:172-227 | the same for a horizontal edge |
| `CopybitBatch.RunsKeepInv` | hardware/qcom-caf/display/libcopybit/copybit.cpp:415-734 | in every run, whatever the kernel answers, at most nine requests are pending, fences stay below the limit, and requests, acquire fences and release fences are each accounted for in order |
| `CopybitBatch.NothingLost` | hardware/qcom-caf/display/libcopybit/copybit.cpp:415-734 | when every ioctl succeeds, batches followed by the pending list are exactly the requests asked for, in order |
| `CopybitBatch.ConvertedIsSubmitted` | hardware/qcom-caf/display/libcopybit/copybit.cpp:559-567 | when a converted stretch returns and its buffer is freed nothing is pending: the requests it put in the list, from the first on and all of them unless one submission is refused, lie in submitted batches |
| `CopybitBatch.PendingBuffersLive` | hardware/qcom-caf/display/libcopybit/copybit.cpp:415-734 | in every run no pending request comes from a converted stretch |
| `CopybitBatch.PushAllBatches` | hardware/qcom-caf/display/libcopybit/copybit.cpp:519-558 | when every ioctl succeeds there is one for every tenth request, with ten requests, and the rest is pending |
| `CopybitBatch.SetSyncSubmitsIff` | hardware/qcom-caf/display/libcopybit/copybit.cpp:415-438 | storing a fence makes an ioctl, with all that is pending, if and only if 31 fences are stored |
| `CopybitBatch.NoFenceLost` | hardware/qcom-caf/display/libcopybit/copybit.cpp:415-734 | when every ioctl succeeds, the fences gone and then those pending are exactly those the calls passed in, in order |
| `CopybitBatch.FlushHandsOut` | hardware/qcom-caf/display/libcopybit/copybit.cpp:718-734 | flush hands out the fence of the submission it makes, none if that is refused, and the one left over when nothing is pending |
| `CopybitBatch.StretchReports` | hardware/qcom-caf/display/libcopybit/copybit.cpp:441-573 | a stretch succeeds if and only if all its submissions are taken, and otherwise reports the error of the refused one, its last |
| `CopybitBatch.OthersReport` | hardware/qcom-caf/display/libcopybit/copybit.cpp:415-703 | the same for a fill; storing a fence fails with one error number and changes nothing |
| `CopybitBatch.BadCallsRejected` | hardware/qcom-caf/display/libcopybit/copybit.cpp:454-510 | unsupported alpha, a source outside its image, images too large or a failed conversion change nothing |
| `CopybitBatch.GoodCallsAccepted` | hardware/qcom-caf/display/libcopybit/copybit.cpp:454-510 | every other stretch is accepted |
| `CopybitBatch.EmittedWritesInside` | hardware/qcom-caf/display/libcopybit/copybit.cpp:514-558 | every request writes a non-empty part of the image inside the destination rectangle and one of the clips |
| `CopybitBatch.SkippedIff` | hardware/qcom-caf/display/libcopybit/copybit.cpp:544-551 | a clip asks for nothing if and only if nothing of it is visible or no source pixel is left for it |
| `CopybitBatch.FillInsideIff` | hardware/qcom-caf/display/libcopybit/copybit.cpp:656-690 | a fill inside the image is accepted; an accepted one stays inside if and only if its far edges do |
| `CopybitBatch.FillOutside` | hardware/qcom-caf/display/libcopybit/copybit.cpp:656-690 | columns 5 to 15 of a ten-column image are accepted |
| `CopybitBatch.EmittedInsideIff` | hardware/qcom-caf/display/libcopybit/copybit.cpp:441-573 | every request of a stretch that is not rejected reads inside the source rectangle if and only if the rectangle's edges are in order |
| `CopybitBatch.InvertedReadsOutside` | hardware/qcom-caf/display/libcopybit/copybit.cpp:441-573 | a stretch from columns 10 to 5 is accepted and asks for 429496724 columns |
| `CopybitBatch.WholeStretch` | hardware/qcom-caf/display/libcopybit/copybit.cpp:441-573 | a stretch clipped to its destination shows the whole source rectangle: no accepted extents wrap |
| `CopybitBatch.FarDestinationWraps` | hardware/qcom-caf/display/libcopybit/copybit.cpp:441-573 | a destination starting at -2097152 is accepted and shows columns 0 to 7 instead of 4088 to 4096 |
| `CopybitBatch.StretchColumnsMeet` | hardware/qcom-caf/display/libcopybit/copybit.cpp:441-573 | of an accepted stretch whose destination lies in bounds, the requests of two clips sharing a vertical edge show neighbouring parts of the source |
| `CopybitBatch.StretchRowsMeet` | hardware/qcom-caf/display/libcopybit/copybit.cpp:441-573 | the same for a horizontal edge |
| `CopybitBatch.FarNeighboursPart` | hardware/qcom-caf/display/libcopybit/copybit.cpp:441-573 | an accepted stretch beyond bounds, of which two neighbouring clips show columns 4080 and 1 |
| `CopybitBatch.ApplyForgets` | hardware/qcom-caf/display/libcopybit/copybit.cpp:415-734 | the acquire fences forgotten grow exactly by those that a flush finds with nothing pending |
| `CopybitBatch.NoneForgottenIff` | hardware/qcom-caf/display/libcopybit/copybit.cpp:415-734 | no acquire fence is forgotten in a run if and only if no flush finds fences and nothing pending |
| `CopybitBatch.FlushDropsFence` | hardware/qcom-caf/display/libcopybit/copybit.cpp:415-734 | storing a fence and flushing at once forgets it |
| `CopybitBatch.SubmitKeeps` | hardware/qcom-caf/display/libcopybit/copybit.cpp:247-290 | what one ioctl does to the ledgers, for success and refusal |
| `CopybitBatch.PushAllKeeps` | hardware/qcom-caf/display/libcopybit/copybit.cpp:514-558 | the stretch loop keeps the ledgers, also when a submission is refused half way |
| `CopybitBatch.SetSyncKeeps` | hardware/qcom-caf/display/libcopybit/copybit.cpp:415-438 | storing a fence, or submitting first when the fences are full, keeps the ledgers |
| `CopybitBatch.Device.constructor` | hardware/qcom-caf/display/libcopybit/copybit.cpp:737-794 | the empty list of an opened device |
| `CopybitBatch.Device.MsmCopybit` | hardware/qcom-caf/display/libcopybit/copybit.cpp:247-290 | closes the previous release fence and submits the list; a refusal gives the negated error number |
| `CopybitBatch.Device.SetSync` | hardware/qcom-caf/display/libcopybit/copybit.cpp:415-438 | the new state and status for a free slot, a full fence list and a refused submission |
| `CopybitBatch.Device.StretchClip` | hardware/qcom-caf/display/libcopybit/copybit.cpp:519-558 | one clip adds its request, or none when nothing is visible |
| `CopybitBatch.Device.Stretch` | hardware/qcom-caf/display/libcopybit/copybit.cpp:441-573 | rejections leave the list alone; otherwise the region's requests are added until one submission is refused, and a converted image is submitted before its buffer is freed |
| `CopybitBatch.Device.FillColor` | hardware/qcom-caf/display/libcopybit/copybit.cpp:656-703 | bad geometry is rejected, else one fill request is added |
| `CopybitBatch.Device.FlushGetFence` | hardware/qcom-caf/display/libcopybit/copybit.cpp:718-734 | submits what is pending, hands out the release fence and forgets the acquire fences |
| `EglImageCache.NamesMatchKeys` | hardware/qcom-caf/display/gpu_tonemapper/EGLImageWrapper.cpp:178-210 | the name map is injective and its range is the cache's key set |
| `EglImageCache.WrapKeeps` | hardware/qcom-caf/display/gpu_tonemapper/EGLImageWrapper.cpp:178-210 | a call keeps both containers in step and returns the live image of the name, the old one on a hit |
| `EglImageCache.YoungestSurvives` | hardware/qcom-caf/display/gpu_tonemapper/EGLImageWrapper.cpp:178-210 | the image returned last survives the next call |
| `EglImageCache.BlitImagesAlive` | hardware/qcom-caf/display/gpu_tonemapper/Tonemapper.cpp:119-127 | destination and source image are both alive when blit draws |
| `EglImageCache.RunsKeepInv` | hardware/qcom-caf/display/gpu_tonemapper/EGLImageWrapper.cpp:86-210 | in every run of at most 2^32 images the containers agree and each image is cached or deleted exactly once |
| `EglImageCache.DestroyDeletesAll` | hardware/qcom-caf/display/gpu_tonemapper/EGLImageWrapper.cpp:122-146 | the destructor deletes every image still cached, so each ever built is deleted once |
| `EglImageCache.CachesLastUsed` | hardware/qcom-caf/display/gpu_tonemapper/EGLImageWrapper.cpp:111 | the cache holds exactly the last 32 distinct names, in order of last use |
| `EglImageCache.MissKeepsIff` | hardware/qcom-caf/display/gpu_tonemapper/EGLImageWrapper.cpp:178-210 | a miss keeps the containers in step if and only if the truncated counter is not a key in use, or is the key of the image the miss evicts and that image's name sorts before the new one |
| `EglImageCache.KeysRunOut` | hardware/qcom-caf/display/gpu_tonemapper/EGLImageWrapper.cpp:66-210 | a run, all of whose names fit the buffer they are read into, in which the truncated counter collides and the containers disagree |
| `EglImageCache.EGLImageWrapper.constructor` | hardware/qcom-caf/display/gpu_tonemapper/EGLImageWrapper.cpp:108-119 | both containers start empty |
| `EglImageCache.EGLImageWrapper.EntryRemoved` | hardware/qcom-caf/display/gpu_tonemapper/EGLImageWrapper.cpp:86-105 | the callback deletes the image and erases the first name in map order that has its key |
| `EglImageCache.EGLImageWrapper.CacheGet` | hardware/qcom-caf/display/gpu_tonemapper/EGLImageWrapper.cpp:178-210 | a lookup makes a hit the most recently used entry |
| `EglImageCache.EGLImageWrapper.CachePut` | hardware/qcom-caf/display/gpu_tonemapper/EGLImageWrapper.cpp:178-210 | insertion evicts first, then refuses a key that is present |
| `EglImageCache.EGLImageWrapper.Wrap` | hardware/qcom-caf/display/gpu_tonemapper/EGLImageWrapper.cpp:178-210 | the whole call equals the cache step: hit, miss, colliding key and unnamed buffer |
| `EglImageCache.EGLImageWrapper.Destroy` | hardware/qcom-caf/display/gpu_tonemapper/EGLImageWrapper.cpp:122-146 | clears both containers, deleting every cached image |
| `IonCookieCache.ImportsAreEntries` | hardware/qcom-caf/display/gpu_tonemapper/EGLImageWrapper.cpp:86-210 | in every run of the cookie variant whose imports succeed outstanding imports are exactly the cached entries, one each; the first import that fails ends that |
| `IonCookieCache.WrapKeepsIff` | hardware/qcom-caf/display/gpu_tonemapper/EGLImageWrapper.cpp:86-210 | a call keeps outstanding imports and cached entries equal if and only if its import succeeds |
| `IonCookieCache.CachesLastCookies` | hardware/qcom-caf/display/gpu_tonemapper/EGLImageWrapper.cpp:111 | whatever imports succeed, the cache holds exactly the last 32 distinct cookies, in order of last use |
| `ModifiedUtf8.DecodeEncode` | hardware/dpm/strdup16to8.cpp:136-167 | every UTF-16 sequence, with zeros and unpaired surrogates, survives encoding and decoding |
| `ModifiedUtf8.EncodeHasNoZero` | hardware/dpm/strdup16to8.cpp:136-167 | no zero byte before the terminator |
| `ModifiedUtf8.EncodeIsCanonical` | hardware/dpm/strdup16to8.cpp:136-167 | the encoder emits shortest forms only, zero as two bytes |
| `ModifiedUtf8.EncodeDecodeIff` | hardware/dpm/strdup8to16.cpp:113-178 | re-encoding a decoded string gives it back if and only if it was canonical |
| `ModifiedUtf8.SurrogatePair` | hardware/dpm/strdup8to16.cpp:164-169 | supplementary codes become their surrogate pair (section 2.1 of RFC 2781) |
| `ModifiedUtf8.CompleteDecodes` | hardware/dpm/strdup8to16.cpp:113-172 | a complete sequence of any length decodes to the UTF-16 form of the value its bits spell, or to the replacement character past the limit, and decoding goes on behind it |
| `ModifiedUtf8.CutShortDecodes` | hardware/dpm/strdup8to16.cpp:113-144 | a stray continuation byte or a sequence cut short decodes to exactly one 0xfffd, and decoding goes on at the byte that broke it |
| `ModifiedUtf8.CompleteOrCut` | hardware/dpm/strdup8to16.cpp:113-144 | every byte string starts with one or the other, never both |
| `ModifiedUtf8.TextDecodesIff` | hardware/dpm/strdup8to16.cpp:113-178 | standard UTF-8 text, read back as UTF-16, gives its code points if and only if it contains neither 0x10fffe nor 0x10ffff |
| `ModifiedUtf8.LengthPrediction` | hardware/dpm/strdup8to16.cpp:69-178 | for every byte string, predicted length minus decoded length is the number of four-byte leads that fall short |
| `ModifiedUtf8.EncodedString` | hardware/dpm/strdup16to8.cpp:28-50 | what strndup16to8 writes is one C string that strlen8to16 measures exactly and decoding inverts |
| `ModifiedUtf8.IsExtension` | hardware/dpm/strdup8to16.cpp:79 | the mask test finds exactly the bytes 0x80 to 0xbf |
| `ModifiedUtf8.LookUpLength` | hardware/dpm/strdup8to16.cpp:31 | the shifted constant gives the sequence length of every lead byte |
| `ModifiedUtf8.Strlen8to16` | hardware/dpm/strdup8to16.cpp:69-100 | the counting loop computes the predicted length, cut to a `size_t` |
| `ModifiedUtf8.PredictionFits` | hardware/dpm/strdup8to16.cpp:69-100 | nothing is cut for a string of at most half the address space |
| `ModifiedUtf8.ReadContinuation` | hardware/dpm/strdup8to16.cpp:135-143 | reads continuation bytes until the sequence is complete, cut short or broken |
| `ModifiedUtf8.GetUtf32FromUtf8` | hardware/dpm/strdup8to16.cpp:113-144 | the next code and position, also for stray continuation bytes, the terminator and broken sequences |
| `ModifiedUtf8.PutCode` | hardware/dpm/strdup8to16.cpp:162-172 | appends the units of one code and changes nothing else |
| `ModifiedUtf8.Strcpy8to16` | hardware/dpm/strdup8to16.cpp:152-178 | the destination holds the decoded units and is unchanged behind them |
| `ModifiedUtf8.Strdup8to16` | hardware/dpm/strdup8to16.cpp:44-61 | null exactly for null, overflow or failed allocation, and a failed allocation is written through exactly when the string is not empty; otherwise the buffer is large enough for every string and exceeds the result by the shortfall |
| `ModifiedUtf8.Strnlen16to8` | hardware/dpm/strdup16to8.cpp:56-121 | both loops give the encoded length, held at the maximum minus one when it cannot be represented |
| `ModifiedUtf8.PutUnit` | hardware/dpm/strdup16to8.cpp:148-161 | appends the bytes of one unit and changes nothing else |
| `ModifiedUtf8.Strncpy16to8` | hardware/dpm/strdup16to8.cpp:136-167 | the destination holds the encoding and one terminator, unchanged behind it |
| `ModifiedUtf8.Strndup16to8` | hardware/dpm/strdup16to8.cpp:28-50 | null exactly for null, overflow or failed allocation; otherwise exactly the encoding and its terminator |
| `GrallocLayout.GetSizeNoWrap` | hardware/qcom-caf/display/gralloc/gr_utils.cpp:199-295 | a size below 4 GiB is computed without a wrap on the way |
| `GrallocLayout.SpRoom` | hardware/qcom-caf/display/gralloc/gr_utils.cpp:199-295 | the size of each semi-planar format has room for its luma and chroma rows |
| `GrallocLayout.SizeTight` | hardware/qcom-caf/display/gralloc/gr_utils.cpp:199-486 | outside the Adreno format the layout ends on the last page of the size |
| `GrallocLayout.AdrenoTight` | hardware/qcom-caf/display/gralloc/gr_utils.cpp:231-234 | the Adreno size is luma and chroma in whole pages |
| `GrallocLayout.RefusedIff` | hardware/qcom-caf/display/gralloc/gr_utils.cpp:199-295 | a size of zero is given if and only if the format cannot have the odd dimension |
| `GrallocLayout.SpPlanesAre` | hardware/qcom-caf/display/gralloc/gr_utils.cpp:353-364 | chroma pairs start where luma ends and share its stride |
| `GrallocLayout.Yv12Shape` | hardware/qcom-caf/display/gralloc/gr_utils.cpp:456-465 | the three YV12 planes follow each other inside the size |
| `GrallocLayout.AlignedWidthCovers` | hardware/qcom-caf/display/gralloc/gr_utils.cpp:721-785 | the padded width covers the image for every format |
| `GrallocLayout.PaddedExactly` | hardware/qcom-caf/display/gralloc/gr_utils.cpp:721-785 | each format is padded to the next multiple of its own alignment and no further |
| `GrallocLayout.EvenImagesLaidOut` | hardware/qcom-caf/display/gralloc/gr_utils.cpp:199-486 | for even dimensions every sample of every format lies inside the allocation, the chroma planes are in the order the format's name promises, and no two samples share a byte if and only if the format is not P010 |
| `GrallocLayout.P010Overlaps` | hardware/qcom-caf/display/gralloc/gr_utils.cpp:353-364 | the one-byte offset makes P010 chroma samples overlap |
| `GrallocLayout.InsideIffLastPair` | hardware/qcom-caf/display/gralloc/gr_utils.cpp:353-364 | all samples fit exactly when the last chroma pair does |
| `GrallocLayout.FitsIffRoom` | hardware/qcom-caf/display/gralloc/gr_utils.cpp:250-294 | for any height, data alignment and number of layers a 4:2:0 semi-planar image fits if and only if the height is even, there is a second layer or the extra half row fits what the size was rounded up to |
| `GrallocLayout.OddHeightOverruns` | hardware/qcom-caf/display/gralloc/gr_utils.cpp:250-253 | a 96 by 199 image does not fit |
| `GrallocLayout.MetaSizesAgree` | hardware/qcom-caf/display/gralloc/gr_utils.cpp:575-687 | for an allocation below 4 GiB, metadata sized from requested and from padded dimensions agree within 1024 columns and 64 rows, and metadata followed by pixels lies inside the allocation, whatever the data alignment and the layers |
| `GrallocLayout.MetaAgreesIff` | hardware/qcom-caf/display/gralloc/gr_utils.cpp:598-620 | padding keeps the metadata's dimensions if and only if it stays within the same 1024 columns and 64 rows |
| `GrallocLayout.PixelsFitIff` | hardware/qcom-caf/display/gralloc/gr_utils.cpp:598-687 | the pixels behind the metadata end inside the size if and only if padding does not enlarge the metadata |
| `GrallocLayout.DefaultPaddingAgrees` | hardware/qcom-caf/display/gralloc/gr_adreno_info.cpp:98-101 | the default 32-pixel padding stays within those limits |
| `BufferLifecycle.RunsKeepInv` | hardware/qcom-caf/display/gralloc/gr_buf_mgr.cpp:157-560 | in every run of either allocator, whatever the kernel answers, no number belongs to two handles, each descriptor is closed, lost or some handle's, and each registration is freed exactly once or still in the map |
| `BufferLifecycle.SoundRunIff` | hardware/qcom-caf/display/gralloc/gr_buf_mgr.cpp:193-315 | in every run no descriptor is closed twice and no closed one is registered if and only if no handle whose main descriptor is closed is retained without asking the kernel |
| `BufferLifecycle.SoundIff` | hardware/qcom-caf/display/gralloc/gr_buf_mgr.cpp:193-315 | the same for one call |
| `BufferLifecycle.ClosedOnceIff` | hardware/qcom-caf/display/gralloc/gr_buf_mgr.cpp:193-315 | once all references are given back, no descriptor was closed twice if and only if no such handle was retained |
| `BufferLifecycle.LegacyClosesOnce` | hardware/qcom-caf/display/gralloc/gr_ion_alloc.cpp:207-237 | with the allocator that asks the kernel no run closes a descriptor twice |
| `BufferLifecycle.RevivedClosesTwice` | hardware/qcom-caf/display/gralloc/gr_ion_alloc.cpp:108-125 | a run that closes a descriptor twice with the libion allocator and only once with the other |
| `BufferLifecycle.RefsAreBalance` | hardware/qcom-caf/display/gralloc/gr_buf_mgr.cpp:286-315 | a handle is in the map if and only if more references were taken than given back, and its count is that balance |
| `BufferLifecycle.FailedImport` | hardware/qcom-caf/display/gralloc/gr_device_impl.cpp:581-611 | an import that fails after cloning closes both clones exactly once and leaves everything else as it was |
| `BufferLifecycle.ImportsIff` | hardware/qcom-caf/display/gralloc/gr_device_impl.cpp:581-611 | an import succeeds if and only if both descriptors are open, duplicated and imported, the last of which libion never refuses |
| `BufferLifecycle.ImportedIs` | hardware/qcom-caf/display/gralloc/gr_device_impl.cpp:581-611 | an imported handle has two new descriptors, the source's flag and one reference |
| `BufferLifecycle.SharedIs` | hardware/qcom-caf/display/gralloc/gr_buf_mgr.cpp:157-191 | a shared handle has a new descriptor for each open one that can be duplicated |
| `BufferLifecycle.FailedRetain` | hardware/qcom-caf/display/gralloc/gr_buf_mgr.cpp:230-262 | a failed retain leaves the handle alone, or without descriptors and both closed when only the metadata cannot be imported |
| `BufferLifecycle.LastReleaseDeletesIff` | hardware/qcom-caf/display/gralloc/gr_buf_mgr.cpp:193-221 | after a last release that unmaps, the handle is in memory if and only if its client allocated it, and its descriptors are closed |
| `BufferLifecycle.AllReleasedIff` | hardware/qcom-caf/display/gralloc/gr_buf_mgr.cpp:193-560 | once all references are given back, every descriptor is closed or with the client that brought it if and only if no metadata allocation failed after its main allocation and no handle's latest last release failed to unmap the main buffer while metadata was open |
| `BufferLifecycle.StrandedIff` | hardware/qcom-caf/display/gralloc/gr_buf_mgr.cpp:193-560 | in every run a handle outside the map has an open metadata descriptor alone if and only if its latest last release failed to unmap the main buffer |
| `BufferLifecycle.LegacyNeverMends` | hardware/qcom-caf/display/gralloc/gr_buf_mgr.cpp:193-315 | with the allocator that asks the kernel no later call closes such a descriptor |
| `BufferLifecycle.LeakingRuns` | hardware/qcom-caf/display/gralloc/gr_buf_mgr.cpp:193-560 | a run of each kind, with either allocator |
| `BufferLifecycle.DropKeeps` | hardware/qcom-caf/display/gralloc/gr_buf_mgr.cpp:193-221 | closing a handle's descriptors keeps every other handle's ownership |
| `BufferLifecycle.ApplyKeeps` | hardware/qcom-caf/display/gralloc/gr_buf_mgr.cpp:157-560 | every call keeps the ownership invariant |
| `BufferLifecycle.BufferManager.constructor` | hardware/qcom-caf/display/gralloc/gr_buf_mgr.cpp:42-55 | the empty manager |
| `BufferLifecycle.BufferManager.RegisterHandleLocked` | hardware/qcom-caf/display/gralloc/gr_buf_mgr.cpp:223-228 | enters a handle with one reference, leaving an existing entry alone |
| `BufferLifecycle.BufferManager.AllocateBuffer` | hardware/qcom-caf/display/gralloc/gr_buf_mgr.cpp:514-560 | a new handle with two new descriptors, registered; a failing metadata allocation leaves the main descriptor to nobody |
| `BufferLifecycle.BufferManager.CreateSharedHandle` | hardware/qcom-caf/display/gralloc/gr_buf_mgr.cpp:157-191 | a new handle with what could be duplicated, registered |
| `BufferLifecycle.BufferManager.FreeBuffer` | hardware/qcom-caf/display/gralloc/gr_buf_mgr.cpp:193-221 | closes both descriptors and deletes the handle unless the client allocated it; a failing unmap ends it half way, the handle still naming what was closed |
| `BufferLifecycle.BufferManager.AllocatorImport` | hardware/qcom-caf/display/gralloc/gr_ion_alloc.cpp:122-125 | libion accepts any number, the other allocator only what the kernel accepts |
| `BufferLifecycle.BufferManager.ImportHandleLocked` | hardware/qcom-caf/display/gralloc/gr_buf_mgr.cpp:230-262 | registers, or fails with the descriptors kept or both closed and cleared, as the allocator decides |
| `BufferLifecycle.BufferManager.RetainBuffer` | hardware/qcom-caf/display/gralloc/gr_buf_mgr.cpp:286-298 | counts a known handle up, imports an unknown one |
| `BufferLifecycle.BufferManager.ReleaseBuffer` | hardware/qcom-caf/display/gralloc/gr_buf_mgr.cpp:300-315 | refuses an unknown handle, counts down, frees on the last reference |
| `BufferLifecycle.BufferManager.ImportBuffer` | hardware/qcom-caf/display/gralloc/gr_device_impl.cpp:581-611 | clone with its flags, retain, and on failure close and delete the clone |
| `FramebufferSlots.SetBit` | hardware/qcom-caf/display/libgralloc/gpu.cpp:236-238 | setting a slot's bit changes that bit only |
| `FramebufferSlots.ClearBit` | hardware/qcom-caf/display/libgralloc/gpu.cpp:354 | clearing a slot's bit changes that bit only |
| `FramebufferSlots.IndexIff` | hardware/qcom-caf/display/libgralloc/gpu.cpp:351-353 | dividing by the unrounded size finds slot i if and only if i times the rounding is below one size |
| `FramebufferSlots.RunsKeepExact` | hardware/qcom-caf/display/libgralloc/gpu.cpp:190-354 | in every run the mask is exactly the set of slots held by live handles, each held once |
| `FramebufferSlots.LiveSlotsDisjoint` | hardware/qcom-caf/display/libgralloc/framebuffer.cpp:326-331 | any two live handles occupy disjoint page-rounded ranges |
| `FramebufferSlots.LiveSlotInside` | hardware/qcom-caf/display/libgralloc/framebuffer.cpp:326-331 | every live handle's range lies inside the mapping |
| `FramebufferSlots.OutOfBuffersIff` | hardware/qcom-caf/display/libgralloc/gpu.cpp:218-221 | allocation runs out if and only if every slot is held |
| `FramebufferSlots.NoSlotTaken` | hardware/qcom-caf/display/libgralloc/gpu.cpp:190-221 | without a framebuffer, or with a single buffer, no slot is taken |
| `FramebufferSlots.ExactIffSound` | hardware/qcom-caf/display/libgralloc/gpu.cpp:348-354 | every run shifts by less than 64 and keeps the mask exact if and only if the rounding of all slots but the last is below one screen |
| `FramebufferSlots.SmallScreenLeaks` | hardware/qcom-caf/display/libgralloc/gpu.cpp:348-354 | two screens of 100 bytes leak a slot |
| `FramebufferSlots.FramebufferModule.constructor` | hardware/qcom-caf/display/libgralloc/framebuffer.cpp:326-331 | an empty mask and page-rounded slots |
| `FramebufferSlots.FramebufferModule.AllocFramebufferLocked` | hardware/qcom-caf/display/libgralloc/gpu.cpp:190-246 | no framebuffer, a single buffer, a full mask, or the first free slot and its address |
| `FramebufferSlots.FramebufferModule.FreeImpl` | hardware/qcom-caf/display/libgralloc/gpu.cpp:348-354 | clears the bit found by division and forgets the handle |
| `PropertyParser.RenderedFileParsesIff` | init/init_yoshino.cpp:56-111 | every list of well-formed pairs, imports, blank lines and comments, however spaced, gives exactly the pairs passing the filter and, without a filter, the imports, in order, if and only if a filter is set or no pair starts like an import; values may contain `=`, and text behind the last newline is not read |
| `PropertyParser.PairParsesIff` | init/init_yoshino.cpp:68-95 | one pair, however spaced, parses to itself or is filtered out if and only if a filter is set or its line does not start with `import` and a space |
| `PropertyParser.ImportKeys` | init/init_yoshino.cpp:68-95 | `import = x` imports a file called `=`, `import=x` sets a property |
| `PropertyParser.DirectiveParses` | init/init_yoshino.cpp:72-80 | one import, however spaced, parses to its file and filter, and is ignored under a filter |
| `PropertyParser.SkipSpaces` | init/init_yoshino.cpp:68 | the pointer stops at the first character that is no space |
| `PropertyParser.TrimBack` | init/init_yoshino.cpp:70-71 | trailing spaces become terminators, nothing else changes |
| `PropertyParser.CutImport` | init/init_yoshino.cpp:75-80 | an import is cut into file and optional filter |
| `PropertyParser.CutPair` | init/init_yoshino.cpp:82-95 | a pair is cut at the first `=`, both sides trimmed, and filtered |
| `PropertyParser.FilterPasses` | init/init_yoshino.cpp:88-94 | exact names and trailing-star prefixes |
| `PropertyParser.FilterMeans` | init/init_yoshino.cpp:88-94 | a name and a star let through every key that starts with the name, another name that key alone, no filter every key |
| `PropertyParser.LoadLine` | init/init_yoshino.cpp:65-96 | the calls made for one line are those the line means |
| `PropertyParser.LoadProperties` | init/init_yoshino.cpp:56-98 | the calls made are those the file means, up to the first NUL or the last newline |

## Left out

- Yv12Converter.Convert: images of which a 32-bit size is cut are excluded; the blitter accepts none (`Yv12Converter.NoWrap`).
- StrideConverter.C2dFitsIff: sizes do not wrap at 32 bits.
- InteractionHandler.Handler.WaitForIdle: clients do not interfere in the method; in the machine, of which its calls are steps, they do. How long a poll waits is not modelled.
- InteractionHandler.Handler.Init: not called between the locked part of Exit and its join, where the source would overwrite a running thread.
- CopybitRects.SourceRectInside: for a source rectangle whose edges are in order; `CopybitBatch.EmittedInsideIff` covers the others.
- CopybitBatch.Device.Stretch: image pointers, formats, alpha and dither fields of a request are not modelled; the conversion to NV21 is `Yv12Converter`.
- CopybitBatch.RunsKeepInv: the fence limit of the kernel header, which is not part of this model, is taken as 32.
- EglImageCache.EGLImageWrapper.Wrap: Android's LRU cache is modelled by its contract; image creation always succeeds for a named buffer.
- IonCookieCache.ImportsAreEntries: the cookie variant is modelled on values, not as an object.
- ModifiedUtf8.Strlen8to16: the count of expected continuation bytes is unbounded; the source's is a signed 32-bit integer.
- ModifiedUtf8.Strncpy16to8: the source's break on zero in the one-byte branch cannot be reached and is omitted.
- GrallocLayout.EvenImagesLaidOut: metadata that overrides format or geometry is not modelled; widths are aligned without signed overflow.
- GrallocLayout.FitsIffRoom: for rows wide enough for whole chroma pairs, as every even padded width is.
- GrallocLayout.MetaSizesAgree: for the two and four byte RGB formats, the only RGB formats the source compresses.
- BufferLifecycle.RunsKeepInv: ION handles are not counted. The kernel gives no number twice, so that closing a number again shows and the kernel refuses a closed one. Clients neither close nor delete a registered handle themselves. `native_handle_clone` is modelled by its contract.
- FramebufferSlots.FramebufferModule.AllocFramebufferLocked: the duplicated ION descriptor of the handle and the ordinary buffer of a single-buffer display are not modelled.
- FramebufferSlots.FramebufferModule.FreeImpl: a shift of 64 or more, undefined in the source, is taken to clear nothing; no run of a sound configuration has one.
- PropertyParser.LoadProperties: an import is reported as a call, the imported file is not followed.
- Formats laid out by the Venus macros or padded by the Adreno library: both are outside the repository.
- The C2D blitter's drawing path and wait thread, the clear operation of the blitter, and the GL engine: dominated by foreign libraries.
- Power hint modes, lights, trim area, memtrack, HDMI, binder services and the Java customization selector: small tables or plumbing.
