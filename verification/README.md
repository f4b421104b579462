# The HEVC picture pipeline, verified

A Dafny model of the decoding logic of a V4L2 / VAAPI video library, with
proofs about it. It covers the path of an HEVC picture from the byte stream to
the consumer, in layers, and two smaller buffer managers:

- **Stateless HEVC engine** (`StatelessEngine`, `StatelessOwnership`,
  `StatelessConsumer`, `StatelessOutput`, `SequenceOrder`, `StatelessPool`,
  `StatelessPoc`, `PocReference`, `DpbHistory`, `ReferenceSets`, `RefLists`,
  `DriverView`, `V4l2StatelessH265Decoder`): POC recovery, reference picture sets, eviction,
  reference lists and the bumping process over one shared pool of CAPTURE
  buffers. The class updates the source's fields; each of its methods is proved
  to compute a step of `StatelessEngine`, and the run-long theorems are about
  every sequence of such steps, with any driver answers.
- **VAAPI HEVC engine** (`VaapiH265Decoder`, `VaapiPool`, `VaapiConsumer`,
  `TileGrid`) and the proof
  that both engines refine one machine over POCs (`HevcEnginesAgree`). What they
  share is in `DpbMachine`, `DpbBuffers` and `ReferenceDerivation`. The loops that
  derive a reference set, which the two source files repeat line by line, are one
  method here, so that share of the agreement holds by sharing; state, eviction,
  surfaces and everything around them are modelled apart.
- **Short-term reference picture sets** (`ShortTermRps`, `RpsRoundTrip`, `RpsExact`,
  `RpsReference`).
- **Slice segment headers** (`SliceHeader`, `SliceHeaderRoundTrip`,
  `SliceHeaderExact`).
- **NAL layer** (`Emulation`, `AnnexB`, `AnnexBRoundTrip`, `NalReference`,
  `AccessUnits`, `RawOffset`): emulation prevention, byte stream framing, access units, and
  slice-data addresses in raw bits.
- **Scaling lists** (`DiagScan`, `ScalingList`, `ScalingListRoundTrip`,
  `ScalingListReference`).
- **Bit reader** (`Bits`, `ExpGolomb`, `BitReader`), under all of the parsers.
- **VAAPI H.264 sliding window** (`VaapiH264Decoder`, `SlidingWindow`,
  `AvcReference`, `AvcConsumer`, and with the HEVC engine the pool of `Surfaces`)
  and the **stateful M2M engine's queues** (`V4l2M2mDecoder`, `M2mOwnership`,
  `M2mBuffers`).

Parsers are methods over a reader object; their specifications are functions
over the bits not read yet (`Take...`), and writers (`...Bits`) give those
functions their meaning: what is written is read back, and (`...Exact`) nothing
else is accepted. The `...Reference` modules and `ReferenceSets` state results in
the numbers and the positions of the standard, and the `...Consumer` modules from
the calls alone, without the functions and flags that the engines use. Engines are classes; libva and
ioctl answers are parameters of each call, so every theorem over runs
quantifies over all of them. `dafny verify dfyconfig.toml` checks the project.

## Where the code and its documentation part

The model follows the code.

- The overflow loop of both HEVC engines (src/v4l2_stateless_h265_decoder.cc:879-886,
  src/vaapi_h265_decoder.cc:908-915) can drop the picture just decoded and then
  leaves its reference flag set. In the V4L2 engine its buffer is lost until Flush;
  in the VAAPI engine, whose Flush unmarks only what is in the DPB, its surface is
  lost for good. `StatelessPool.DecodeTightness` and `VaapiPool.VaDecodeTightness`
  say exactly when; `LossExample` is an input.
- The POC anchor skips RASL and RADL pictures only, although the comment at
  src/v4l2_stateless_h265_decoder.cc:483 and section 8.3.1 of ITU-T H.265 also
  exclude other sub-layer non-reference pictures. `StatelessPoc.AnchorExample` is a
  conforming input whose POC comes out wrong, `RunPocsExact` says exactly when POCs
  come out right, and `StandardAgrees` when the two anchors cannot part.
- Pending output is not flushed where an IRAP picture restarts the POC, so a picture
  of a new sequence can come out before one of the sequence before
  (`SequenceOrder.OvertakingExample`); `SequencesInOrderIff` says exactly when none does.
- `RbspToRawBitOffset` does not count an emulation byte right before the target
  byte (`Emulation.AddressExactIff`); the nonzero byte that ends every accepted
  slice header makes the slice-data address exact all the same.
- src/vaapi_h265_decoder.cc names only the first 15 DPB entries to the driver, and
  only surfaces below 64; a 16th reference, or one in another surface, is reported
  missing (`VaIndexResolvesIff`).
- A tile grid that does not fit the picture is passed on with wrong sizes
  (`TileGrid.GridExactIff`).
- Two out-of-range copy distances pass the check at
  parse/h265/scaling_list.cc:138 because the product wraps; both still copy the
  list they could have named (`CopyAcceptedIff`, `CopiesReadParsed`).
- The comments at src/v4l2_m2m_decoder.h:53-61 speak of a latest-wins slot; the
  code is a FIFO.
- H.264 windows of MaxFrameNum references or more, which the SPS parser admits, do
  not evict the oldest, except at sizes one short of a multiple of MaxFrameNum
  (`VictimIsOldestIff`, `DropsOldestIff`). From 2^31 on max_num_ref_frames turns
  negative as an int and acts as a window of one (`AvcSps.Window`).
- A pool may be larger than the 64 places of the V4L2 engine's index
  table; a reference in one of the others is sent to index 0
  (`CurrentReferencesResolve`).

## Model

| member | source | states |
|---|---|---|
| `StatelessOutput.DrainedRunSorted` | src/v4l2_stateless_h265_decoder.cc:888-916 | Over one coded video sequence that starts with nothing pending and ends in Drain: the emitted frames are in non-decreasing POC order if and only if no decoded frame has more than reorder_depth_ earlier decoded frames of higher POC; and they are exactly the multiset of decoded frames with pic_output_flag set, once each. |
| `StatelessOutput.ConsumerSeesSorted` | src/v4l2_stateless_h265_decoder.cc:973-1027 | What Acquire hands to the consumer of a sequence that starts with nothing pending or ready and ends in Drain and enough Acquires, each able to export: every picture decoded for output exactly once, and in POC order if and only if no decoded frame has more than reorder_depth_ earlier decoded frames of higher POC. |
| `StatelessOutput.RunIsFifo` | src/v4l2_stateless_h265_decoder.cc:973-977 | Acquire takes frames in the order Bump queued them, skipping none: taken frames, then those still ready, equal those ready at first, then those emitted, over every run without Flush. |
| `SequenceOrder.SequencesInOrderIff` | src/v4l2_stateless_h265_decoder.cc:898-916 | Over any run without Flush, of any number of sequences, that starts with nothing pending and ends in Drain: frames come out by sequence, and by POC within each, if and only if each frame, when decoded, is before none already out, and no pending frame of an earlier sequence has a higher POC and none of a later one a lower (at equal POC the buffer index decides). |
| `SequenceOrder.LowerPocOvertakes` | src/v4l2_stateless_h265_decoder.cc:521-524 | A frame held back by the bumping process is overtaken by the next picture when that one is of a later sequence and has a lower POC: nothing is bumped out where the POC restarts. |
| `SequenceOrder.OvertakingExample` | src/v4l2_stateless_h265_decoder.cc:521-524 | An input from configuration: a CRA picture at POC 8 and then an IDR picture, with a reorder depth of 1; the IDR picture comes out first. |
| `StatelessOwnership.OwnershipOverRuns` | src/v4l2_stateless_h265_decoder.cc:442-463 | From configuration, over every sequence of calls and driver answers: a CAPTURE buffer with the driver is in no list of the engine and not checked out; dpb_ captures and tags are pairwise distinct; output_ready_ has no duplicates; a checked-out buffer is neither ready nor pending. |
| `StatelessOwnership.StepKeepsInv` | src/v4l2_stateless_h265_decoder.cc:862-895 | Every single call (decode success, error or refusal, Acquire, Release, Flush, Drain, new SPS, end of sequence) keeps the ownership invariant. |
| `StatelessConsumer.HeldBuffersAreSafe` | src/v4l2_stateless_h265_decoder.cc:442-448 | From configuration, over every run: the buffers that a successful Acquire handed out and that were not released since, counted from the calls alone, are exactly the checked-out ones, and none of them is with the driver, ready or pending. |
| `StatelessConsumer.AcquireTakesFront` | src/v4l2_stateless_h265_decoder.cc:973-1004 | Acquire, field by field: the front of output_ready_ leaves it; exported it is checked out, else it goes back to the driver if QBUF takes it and it is no reference; every other buffer stays as it was. |
| `StatelessConsumer.ReleaseGivesBack` | src/v4l2_stateless_h265_decoder.cc:1006-1010 | Release, field by field: the check-out ends, and the buffer is with the driver if and only if it was or QBUF takes it and it is neither referenced, pending nor ready. |
| `StatelessConsumer.FlushLeaves` | src/v4l2_stateless_h265_decoder.cc:1012-1023 | Flush, field by field, for every buffer: only references in dpb_ lose their flag, nothing is pending or ready, and all but the checked-out buffers are with the driver if they were or QBUF takes them. |
| `StatelessConsumer.SuccessLeaves` | src/v4l2_stateless_h265_decoder.cc:862-895 | A successful decode: the returned buffer holds the picture's POC and timestamp, is a reference, not with the driver, not checked out, and pending or ready if and only if the picture is for output; with room, its DPB entry carries the POC, the buffer and the tag of the request. |
| `StatelessConsumer.FailureLeaves` | src/v4l2_stateless_h265_decoder.cc:772-871 | A failed decode: dpb_ is what the set keeps, only buffers that left it lose their flag, no frame moves, the tag is spent once a request is made, and a buffer returned with an error is offered to the driver again. |
| `StatelessConsumer.DecodedFrames` | src/v4l2_stateless_h265_decoder.cc:862-895 | The frame a call decodes for output is a successful picture's, with its POC and timestamp; no other call decodes one. |
| `StatelessPool.DecodeTightness` | src/v4l2_stateless_h265_decoder.cc:873-886 | After a successful decode, is_reference marks exactly the captures in dpb_ if and only if fewer than sps_max_dec_pic_buffering_minus1 + 1 kept references have a POC above the new picture; otherwise the new picture leaves dpb_ at once with its flag still set. |
| `StatelessPool.LossExample` | src/v4l2_stateless_h265_decoder.cc:879-886 | Two decodes from configuration, a CRA picture at POC 8 and one at POC 4 that keeps it, after which the overflow loop has left a capture marked outside dpb_. |
| `StatelessPool.RunKeepsLost` | src/v4l2_stateless_h265_decoder.cc:442-448 | Such a capture stays marked, outside dpb_ and away from the driver over every run without Flush. |
| `StatelessPool.OverflowNeverFires` | src/v4l2_stateless_h265_decoder.cc:877-886 | When the picture conforms (its set keeps at most sps_max_dec_pic_buffering_minus1 pictures and does not name the current POC) and the DPB holds distinct POCs, the overflow loop removes nothing. |
| `StatelessPool.NoStarvation` | src/v4l2_stateless_h265_decoder.cc:888-895 | From configuration, over every conforming run: after a successful decode during which QBUF succeeds, the driver holds at least pool - (max_dec_pic_buffering_minus1 + 1) - reorder depth - (ready + checked out) buffers. |
| `StatelessPool.RunKeepsPool` | src/v4l2_stateless_h265_decoder.cc:873-895 | Over every conforming run is_reference holds exactly for the captures in dpb_, and POCs in dpb_ stay distinct; the pool and the reorder depth keep their sizes. |
| `StatelessPoc.RunPocsExact` | src/v4l2_stateless_h265_decoder.cc:465-493 | Over any run, decode failures, flushes and new SPSs included, of a stream whose headers carry the LSBs of its true POCs (and that starts a sequence after a change of the LSB width): all pictures get their true POCs if and only if each sequence start has its POC below MaxPicOrderCntLsb and every other true POC is in the half-open window of MaxPicOrderCntLsb around the code's own anchor picture. Through any number of wraps, upwards or downwards, negative POCs included. |
| `StatelessPoc.AnchorExample` | src/v4l2_stateless_h265_decoder.cc:483-491 | An input that the standard's anchor decodes and the code's does not, however the decodes end: with MaxPicOrderCntLsb 16, after IDR, TRAIL_R and TRAIL_N pictures of TemporalId 0 at POC 0, 8 and 1, the TRAIL_R picture at POC 16 gets POC 0. |
| `StatelessPoc.StandardAgrees` | src/v4l2_stateless_h265_decoder.cc:483-491 | Over any run without sub-layer non-reference pictures at TemporalId 0 (RASL and RADL aside) the code's POCs are those of the standard's anchor. |
| `PocReference.RunPocsAreReference` | src/v4l2_stateless_h265_decoder.cc:465-493 | Over every run, the POCs are those of a small machine over headers alone, with NAL unit types and modulus in numbers: types 16 to 20 restart it, 21 to 23 when first or after an end of sequence. |
| `PocReference.WindowMoves` | src/v4l2_stateless_h265_decoder.cc:471-491 | After a picture of TemporalId 0 that is none of the types 6 to 9, the next one that does not restart has the one POC with its LSBs in the half-open window around that picture's POC. |
| `PocReference.EndsInLsbs` | src/v4l2_stateless_h265_decoder.cc:471-482 | Every POC of that machine ends in the LSBs of its header. |
| `PocReference.LeadingPicturesMoveNothing` | src/v4l2_stateless_h265_decoder.cc:484-491 | Two runs from like states that differ only in pictures of the types 6 to 9 (RADL and RASL), which are neither first nor right after an end of sequence, and in calls that have no part in POCs, give all other pictures the same POCs. |
| `DpbMachine.PocIsUniqueInWindow` | src/v4l2_stateless_h265_decoder.cc:468-482 | The computed POC is the one value congruent to the coded LSBs that lies in (anchor - Max/2, anchor + Max/2]: both directions. |
| `DpbMachine.PocPartsFit` | src/v4l2_stateless_h265_decoder.cc:468-491 | A POC that fits int32 splits into an MSB part that fits int32, so no sum of ComputePoc overflows on such streams. |
| `DpbMachine.LongTermPocExact` | src/v4l2_stateless_h265_decoder.cc:558-563 | The POC computed for a long-term reference is the true one if and only if the coded cycle is the distance of the two POCs' MSB parts. |
| `DpbMachine.EvictionExact` | src/v4l2_stateless_h265_decoder.cc:586-602 | After the reference set is applied, an entry is in dpb_ if and only if it was there and the set names its POC: by a delta, or as a long-term entry that was found. |
| `ReferenceSets.EngineSetStands` | src/v4l2_stateless_h265_decoder.cc:534-584 | The three current subsets of the V4L2 engine, place by place: the entry of each used delta of S0 stands in the before subset after those of the earlier used deltas, and is the first entry of the DPB at start with POC plus that delta, none if there is none; S1 likewise in the after subset; long-term references by full POC or by LSBs. Found entries before are below the current POC, those after above. |
| `ReferenceSets.VaapiSetStands` | src/vaapi_h265_decoder.cc:321-386 | The same for the VAAPI engine. |
| `ReferenceSets.LongTermFound` | src/v4l2_stateless_h265_decoder.cc:556-584 | The long-term entries found are exactly the DPB entries that some long-term reference of the picture, used or not, looks up. |
| `ReferenceSets.KeptExactly` | src/v4l2_stateless_h265_decoder.cc:586-602 | An entry survives eviction if and only if it was in the DPB and a delta of S0 or S1, used or not, leads to its POC, or a long-term reference is found at its POC. |
| `ReferenceSets.StartDpb` | src/v4l2_stateless_h265_decoder.cc:514-524 | The DPB a picture starts with: none at types 16 to 20, and at 21 to 23 when first or after an end of sequence; else the engine's. |
| `ReferenceSets.VaapiStartDpb` | src/vaapi_h265_decoder.cc:303-319 | The same in the VAAPI engine. |
| `ReferenceSets.TotalIsCount` | parse/h265/slice_header.cc:307-321 | NumPicTotalCurr is the number of used deltas of S0 and of S1 and of used long-term references. |
| `DpbHistory.RunDpbExact` | src/v4l2_stateless_h265_decoder.cc:586-602 | Over every run: an entry is in dpb_ at the end if and only if it was in it at first, or a decode of the run added it, and since then no sequence started, no Flush came, every reference set named it, and at every successful decode fewer than the bound of the other references had a higher POC (or the same and joined later). |
| `DpbHistory.DpbFromConfiguration` | src/v4l2_stateless_h265_decoder.cc:586-602 | From configuration: exactly the references that a decode of the run added and all of that kept. |
| `DpbHistory.TrimKeepsIff` | src/v4l2_stateless_h265_decoder.cc:879-886 | Cutting the DPB to its bound keeps an entry if and only if fewer than the bound of the others have a higher POC, or the same and joined later. |
| `DpbMachine.CurrentSurvives` | src/v4l2_stateless_h265_decoder.cc:534-602 | Every found short- or long-term reference of the current picture survives the eviction that its own set causes. |
| `DpbMachine.EvictCount` | src/v4l2_stateless_h265_decoder.cc:586-602 | With distinct POCs the eviction leaves no more entries than the set names. |
| `DpbMachine.TrimKeepsNewest` | src/v4l2_stateless_h265_decoder.cc:879-886 | Cutting the DPB to its bound keeps the newest picture if and only if fewer than the bound of the others have a higher POC. |
| `V4l2StatelessH265Decoders.CurrentReferencesResolve` | src/v4l2_stateless_h265_decoder.cc:604-635 | Every found current reference is in dpb_ and gets an index below 16. That index leads the driver to its POC and tag, and its 64-bit timestamp to no other entry, if and only if its buffer is one of the 64 of the index table (or it sits at index 0, where all other buffers are sent) and no other entry's tag is a multiple of 2^55 away. |
| `V4l2StatelessH265Decoders.AllResolve` | src/v4l2_stateless_h265_decoder.cc:604-635 | So all of them resolve in a pool of at most 64 buffers, for the first 2^55 pictures. |
| `RefLists.TagNsEqualIff` | src/v4l2_stateless_h265_decoder.cc:611-613 | Two tags become the same nanoseconds modulo 2^64 if and only if they are a multiple of 2^55 apart. |
| `V4l2StatelessH265Decoders.List0IsStandard` | src/v4l2_stateless_h265_decoder.cc:685-701 | All 16 entries of list 0 of a P or B slice: an active one is the DPB index of the picture that section 8.3.4 puts there with its repeatedly appended temporary list of the before, after and long-term subsets, in that order; the others are 0. |
| `V4l2StatelessH265Decoders.List1IsStandard` | src/v4l2_stateless_h265_decoder.cc:702-709 | The same for list 1 of a B slice, with the after subset first, then the before and the long-term subset. |
| `V4l2StatelessH265Decoders.ListsElsewhere` | src/v4l2_stateless_h265_decoder.cc:685-710 | Without references, list 0 of an I slice and list 1 of an I or P slice are all 0. |
| `V4l2StatelessH265Decoders.SubsetsMatchHeader` | src/v4l2_stateless_h265_decoder.cc:695-709 | The three subsets together have exactly the NumPicTotalCurr entries that the header parse counted, so accepted list_entry values make the modulo a no-op. |
| `RefLists.BuiltIsStandard` | src/v4l2_stateless_h265_decoder.cc:685-694 | Cycling through one concatenation of the subsets equals the wrapping temporary list of section 8.3.4, modified or not. |
| `DriverView.ParamsSay` | src/v4l2_stateless_h265_decoder.cc:604-635 | The driver is told of every kept reference its POC, its tag in nanoseconds modulo 2^64, and a long-term mark if and only if a long-term reference of the picture finds it; and each of the three index arrays names the entries of its own subset. |
| `DriverView.ListsBeginApart` | src/v4l2_stateless_h265_decoder.cc:695-709 | An unmodified list 0 begins with the index of a picture below the current POC, an unmodified list 1 with one above it, whenever the first used delta on that side is found in one of the first 64 buffers. |
| `DriverView.VaListsBeginApart` | src/vaapi_h265_decoder.cc:729-756 | In the VAAPI engine the lists begin with the same pictures, by their place if among the first 15 and in a surface below 64, else with 0xFF. |
| `V4l2StatelessH265Decoders.V4l2StatelessH265Decoder.constructor` | src/v4l2_stateless_h265_decoder.cc:400-432 | Every buffer of the pool has been offered to the driver; nothing is referenced, pending or ready. |
| `V4l2StatelessH265Decoders.V4l2StatelessH265Decoder.RequeueCapture` | src/v4l2_stateless_h265_decoder.cc:450-463 | The buffer is with the driver afterwards if QBUF accepted it or it already was; nothing else changes. |
| `V4l2StatelessH265Decoders.V4l2StatelessH265Decoder.MaybeRequeue` | src/v4l2_stateless_h265_decoder.cc:442-448 | A buffer is offered to the driver only if it is not queued, referenced, checked out, pending or ready. |
| `V4l2StatelessH265Decoders.V4l2StatelessH265Decoder.RequeueIdle` | src/v4l2_stateless_h265_decoder.cc:893-894 | Exactly the idle buffers are offered, all of them. |
| `V4l2StatelessH265Decoders.V4l2StatelessH265Decoder.ComputePoc` | src/v4l2_stateless_h265_decoder.cc:465-493 | POC and new anchor equal the specification functions that PocIsUniqueInWindow and RunPocsExact are about. |
| `V4l2StatelessH265Decoders.V4l2StatelessH265Decoder.BeginPicture` | src/v4l2_stateless_h265_decoder.cc:514-602 | NoRaslOutputFlag, POC, sequence start, reference set and eviction give the state of StartPicture and the picture's resolved reference set. |
| `V4l2StatelessH265Decoders.V4l2StatelessH265Decoder.EvictUnkept` | src/v4l2_stateless_h265_decoder.cc:586-602 | dpb_ keeps, in order, the entries the set names; exactly the evicted buffers lose their reference flag. |
| `V4l2StatelessH265Decoders.V4l2StatelessH265Decoder.TrimDpb` | src/v4l2_stateless_h265_decoder.cc:877-886 | dpb_ becomes its cut to the bound; the evicted buffers lose their flag, the new picture's excepted. |
| `V4l2StatelessH265Decoders.V4l2StatelessH265Decoder.Bump` | src/v4l2_stateless_h265_decoder.cc:898-916 | Frames are emitted lowest POC first until no more than the reorder depth are pending. |
| `V4l2StatelessH265Decoders.V4l2StatelessH265Decoder.ScanPending` | src/v4l2_stateless_h265_decoder.cc:901-911 | Counts the pending frames and finds the first of lowest POC. |
| `V4l2StatelessH265Decoders.V4l2StatelessH265Decoder.MarshalReferences` | src/v4l2_stateless_h265_decoder.cc:604-635 | What the driver is told: tags, POCs, long-term marks and the indices of the current subsets. |
| `V4l2StatelessH265Decoders.V4l2StatelessH265Decoder.BuildList` | src/v4l2_stateless_h265_decoder.cc:685-694 | The 16-entry list equals the specification that BuiltIsStandard is about. |
| `V4l2StatelessH265Decoders.V4l2StatelessH265Decoder.SliceReferenceLists` | src/v4l2_stateless_h265_decoder.cc:695-710 | Both lists of one slice, by slice type. |
| `V4l2StatelessH265Decoders.V4l2StatelessH265Decoder.CompletePicture` | src/v4l2_stateless_h265_decoder.cc:862-895 | From the dequeued buffer to the requeued pool, error path included. |
| `V4l2StatelessH265Decoders.V4l2StatelessH265Decoder.RunRequest` | src/v4l2_stateless_h265_decoder.cc:772-871 | Which driver answer consumes a tag, and that no CAPTURE buffer changes unless one is dequeued; then the picture is completed. |
| `V4l2StatelessH265Decoders.V4l2StatelessH265Decoder.DecodePicture` | src/v4l2_stateless_h265_decoder.cc:497-896 | One picture end to end, for every driver answer: new state, result, driver parameters, lists and the tag its request carries; the ownership invariant holds after it. |
| `V4l2StatelessH265Decoders.V4l2StatelessH265Decoder.Acquire` | src/v4l2_stateless_h265_decoder.cc:973-1004 | Hands out the front of output_ready_ and checks it out; a failed export drops the frame and may requeue its buffer. |
| `V4l2StatelessH265Decoders.V4l2StatelessH265Decoder.Release` | src/v4l2_stateless_h265_decoder.cc:1006-1010 | Clears the check-out and requeues the buffer if nothing else needs it; an index out of range changes nothing. |
| `V4l2StatelessH265Decoders.V4l2StatelessH265Decoder.Flush` | src/v4l2_stateless_h265_decoder.cc:1012-1023 | References, pending and ready frames are gone, the POC anchor restarts, every buffer not checked out is offered to the driver. |
| `V4l2StatelessH265Decoders.V4l2StatelessH265Decoder.Drain` | src/v4l2_stateless_h265_decoder.cc:1027 | Every pending frame is emitted. |
| `ReferenceDerivation.FindRef` | src/v4l2_stateless_h265_decoder.cc:534-538 | Finds the first DPB entry of a POC, or none exists. |
| `ReferenceDerivation.FindLongTermRef` | src/v4l2_stateless_h265_decoder.cc:556-578 | Finds a long-term reference by full POC when its MSB cycle is coded, else by LSBs. |
| `ReferenceDerivation.DeriveReferences` | src/v4l2_stateless_h265_decoder.cc:539-584 | The three current subsets, the POCs to keep and the long-term entries found. |
| `ReferenceDerivation.OldestEntry` | src/v4l2_stateless_h265_decoder.cc:880-882 | The first entry of lowest POC. |
| `HevcEnginesAgree.EnginesAgree` | src/vaapi_h265_decoder.cc:303-407 | Fed the same pictures with the same successes, and whatever else drivers and consumers do, the V4L2 and the VAAPI engine give every picture the same POC, anchor, found references per list, DPB after its reference set and DPB after the overflow loop. |
| `HevcEnginesAgree.StatelessRefines` | src/v4l2_stateless_h265_decoder.cc:465-602 | Every call of the V4L2 engine is one step, or none, of a machine that knows POCs only. |
| `HevcEnginesAgree.VaapiRefines` | src/vaapi_h265_decoder.cc:196-229 | Every call of the VAAPI engine is one step, or none, of the same machine. |
| `HevcEnginesAgree.SameResolve` | src/vaapi_h265_decoder.cc:321-407 | Resolution, eviction and trimming depend on nothing of the DPB but its POCs and their order. |
| `VaapiH265Decoders.VaStepKeepsInv` | src/vaapi_h265_decoder.cc:187-229 | Every call keeps: no surface referenced twice, every reference's surface marked, the parked surface not with the consumer, at most 16 references. |
| `VaapiH265Decoders.TargetIsFree` | src/vaapi_h265_decoder.cc:187-194 | The surface decoded into is no reference's, not with the consumer, and not the parked one. |
| `VaapiConsumer.TargetLeavesConsumerAlone` | src/vaapi_h265_decoder.cc:187-194 | From configuration, over every run: the surface of the next picture is none that the calls handed out and did not take back, not the one that waits for the consumer, and no reference's; it is found whenever there is such a surface, and the decode then succeeds exactly when libva does. |
| `VaapiConsumer.AcquireHandsParked` | src/vaapi_h265_decoder.cc:1009-1039 | Over every run Acquire hands out the surface of the last successful picture, if nothing was acquired or flushed since, when its dma-buf exists or can be made. |
| `VaapiConsumer.FlushLeaves` | src/vaapi_h265_decoder.cc:1048-1061 | Flush, surface by surface: marks of references in dpb_ end, the consumer keeps what it has. |
| `VaapiPool.VaDecodeTightness` | src/vaapi_h265_decoder.cc:900-915 | The reference marks stay exact after a decode if and only if fewer kept references than the bound have a higher POC; else the new picture leaves dpb_ at once and its own surface stays marked. |
| `VaapiPool.VaStepKeepsLost` | src/vaapi_h265_decoder.cc:1048-1061 | No call unmarks such a surface, Flush included: it unmarks only what is in dpb_. |
| `VaapiPool.VaRunKeepsLost` | src/vaapi_h265_decoder.cc:187-194 | So over every run of any calls it stays marked, outside dpb_, and is never free to be decoded into again. |
| `VaapiPool.VaOverflowNeverFires` | src/vaapi_h265_decoder.cc:906-915 | When the picture conforms and the DPB holds distinct POCs, the overflow loop removes nothing. |
| `VaapiPool.VaRunKeepsPool` | src/vaapi_h265_decoder.cc:900-915 | Over every conforming run the marks are exactly the surfaces in dpb_, and POCs in dpb_ stay distinct. |
| `VaapiPool.VaNoStarvation` | src/vaapi_h265_decoder.cc:187-194 | From configuration, over every conforming run: PickFreeSlot finds a surface for the next conforming picture, so it fails only if libva does, whenever the pool exceeds sps_max_dec_pic_buffering_minus1 + checked out + 1. |
| `VaapiH265Decoders.VaIndexResolvesIff` | src/vaapi_h265_decoder.cc:424-450 | A reference in the DPB is named to the driver by its own place if and only if it is among the first 15 entries and its surface has a place in the table of 64; else it is reported missing (0xFF). |
| `VaapiH265Decoders.VaListIsStandard` | src/vaapi_h265_decoder.cc:729-756 | Every active entry of a built list is the index of the picture that section 8.3.4 puts there. |
| `VaapiH265Decoders.VaList0IsStandard` | src/vaapi_h265_decoder.cc:729-756 | All 15 entries of list 0 of a P or B slice, over the before, after and long-term subsets in that order; inactive ones are 0xFF. |
| `VaapiH265Decoders.VaList1IsStandard` | src/vaapi_h265_decoder.cc:729-756 | All 15 entries of list 1 of a B slice, with the after subset first. |
| `VaapiH265Decoders.VaListsElsewhere` | src/vaapi_h265_decoder.cc:729-756 | Without references, and where the slice type has no such list, every entry is 0xFF. |
| `Surfaces.PickFreeSlot` | src/vaapi_h265_decoder.cc:187-194 | The first free surface, none if all are taken; the H.264 engine has the same loop. |
| `Surfaces.FreeSlotExists` | src/vaapi_h264_decoder.cc:116-124 | Where every marked surface is a reference, one is free whenever the pool exceeds references + checked out + 1. |
| `VaapiH265Decoders.VaapiH265Decoder.ComputePoc` | src/vaapi_h265_decoder.cc:196-229 | The same specification as the V4L2 engine's. |
| `VaapiH265Decoders.VaapiH265Decoder.BeginPicture` | src/vaapi_h265_decoder.cc:303-407 | Up to and including eviction: new state and resolved reference set. |
| `VaapiH265Decoders.VaapiH265Decoder.EvictUnkept` | src/vaapi_h265_decoder.cc:389-407 | Keeps the named entries in order and unmarks exactly the evicted surfaces. |
| `VaapiH265Decoders.VaapiH265Decoder.TrimDpb` | src/vaapi_h265_decoder.cc:906-915 | Cuts the DPB to its bound; the new picture's mark is left alone. |
| `VaapiH265Decoders.VaapiH265Decoder.BuildList` | src/vaapi_h265_decoder.cc:729-738 | The 15-entry list of the specification, 0xFF where nothing is active. |
| `VaapiH265Decoders.VaapiH265Decoder.DecodePicture` | src/vaapi_h265_decoder.cc:231-917 | One picture end to end: state, result, target surface and slice lists, for every parse and libva outcome. |
| `VaapiH265Decoders.VaapiH265Decoder.Acquire` | src/vaapi_h265_decoder.cc:1009-1039 | Hands out the parked frame if its surface could be exported; a failed export drops it. |
| `VaapiH265Decoders.VaapiH265Decoder.Release` | src/vaapi_h265_decoder.cc:1041-1046 | Returns the check-out. |
| `VaapiH265Decoders.VaapiH265Decoder.Flush` | src/vaapi_h265_decoder.cc:1048-1061 | References and the parked frame are gone, the POC anchor restarts. |
| `TileGrid.DeriveSizes` | src/vaapi_h265_decoder.cc:516-551 | Uniform and explicit tile sizes as computed in 32-bit arithmetic and stored in 16 bits. |
| `TileGrid.GridExactIff` | src/vaapi_h265_decoder.cc:513-551 | The grid passed on is that of section 6.5.1 if and only if the tiles fit: no more uniform tiles than blocks, or coded sizes that leave a block for the last tile. |
| `TileGrid.TilesCover` | src/vaapi_h265_decoder.cc:516-551 | The standard's tile sizes always add up to the picture. |
| `ShortTermRpsSets.DeriveMeaning` | parse/h265/sps.cc:315-398 | The inter-predicted lists are exactly { d + deltaRps : d in the reference set or 0, use_delta set, sum nonzero } with matching used flags, S0 strictly decreasing below 0, S1 strictly increasing above 0. |
| `RpsReference.DerivedIsShifted` | parse/h265/sps.cc:315-398 | The same entry by entry, without the model's own index functions: an entry is derived if and only if it is an entry of S0 moved by deltaRps under its flag, one of S1 under the flag &#124;S0&#124; places on, or deltaRps itself under the last flag; S0 falls from below 0, S1 rises from above 0. |
| `RpsReference.ExplicitMeaning` | parse/h265/sps.cc:399-439 | The i-th picture of an explicit S0 lies below the current one by the sum of the first i + 1 coded gaps, each one more than coded; that of S1 above it. |
| `RpsExact.RpsReadExactly` | parse/h265/sps.cc:279-448 | For every bit string: st_ref_pic_set() is read as a set if and only if one of the set's two forms stands there. Nothing else is accepted or misread. |
| `ShortTermRpsSets.ExplicitEqualsInter` | parse/h265/sps.cc:315-398 | A well-formed set with the entries that the inter form chooses is the derived set: the lists are determined by their elements. |
| `ShortTermRpsSets.TakeSetsInvariant` | parse/h265/sps.cc:624-639 | For every bitstream every accepted set k of an SPS has at most 16 deltas and &#124;delta&#124; at most 2^19 + k * 2^15. |
| `ShortTermRpsSets.SliceSetBound` | parse/h265/sps.cc:273-448 | A slice's own set keeps the bound too, so every sum of the parser stays far inside int32 and every flag index inside its array. |
| `ShortTermRpsSets.DeriveS0` | parse/h265/sps.cc:332-364 | The three loops fill S0 with the derived list, or fail exactly when it exceeds 16 entries. |
| `ShortTermRpsSets.DeriveS1` | parse/h265/sps.cc:367-398 | The same for S1. |
| `ShortTermRpsSets.ParseInter` | parse/h265/sps.cc:288-398 | The inter form: succeeds exactly when the syntax does, with the derived set and the reader behind it. |
| `ShortTermRpsSets.ParseExplicit` | parse/h265/sps.cc:399-439 | The explicit form, likewise. |
| `ShortTermRpsSets.ParseShortTermRps` | parse/h265/sps.cc:279-448 | st_ref_pic_set(): result, failure and final position equal the syntax function; accepted sets are well formed and within the bound. |
| `ShortTermRpsSets.ParseRpsSets` | parse/h265/sps.cc:624-639 | The loop over all sets of an SPS, likewise. |
| `ShortTermRpsSets.ExplicitRoundTrip` | parse/h265/sps.cc:399-439 | Every codable set written in the explicit form is read back. |
| `RpsRoundTrip.InterFormCodes` | parse/h265/sps.cc:288-398 | Every set written in the inter form is read back as the derived set, whatever follows it. |
| `RpsRoundTrip.BothFormsCodeOneSet` | parse/h265/sps.cc:279-448 | One set written both ways is read back as the very same lists. |
| `Emulation.StripInsert` | parse/h265/nal.cc:36-50 | Stripping undoes the insertion of emulation prevention, for all byte strings and any preceding zero run. |
| `NalReference.StripIsPositional` | parse/h265/nal.cc:36-50 | On arbitrary bytes: exactly the bytes 0x03 that follow two zero bytes, and are last or stand before a byte up to 0x03, are dropped. |
| `AnnexB.FindStartCode` | parse/h265/nal.cc:56-64 | The first 00 00 01 at or after a position, or none. |
| `AnnexBRoundTrip.FindStartIsFirst` | parse/h265/nal.cc:56-64 | The position found is a start code and no earlier one exists; none is reported only if there is none. |
| `AnnexB.StripEmulationPrevention` | parse/h265/nal.cc:36-50 | The loop computes the stripping function. |
| `AnnexB.ParseAnnexB` | parse/h265/nal.cc:68-122 | The loop returns the parsed units of the byte string. |
| `AnnexBRoundTrip.AnnexBRoundTrip` | parse/h265/nal.cc:68-122 | For any valid header fields and RBSPs that are empty or end in a nonzero byte: insert emulation prevention, join with start codes of any zero padding, parse, and every field, RBSP and raw unit comes back. |
| `AnnexBRoundTrip.ParsedJoin` | parse/h265/nal.cc:68-122 | Any units that can be framed come back exactly, whatever start-free bytes lead and however many zeros trail. |
| `AnnexBRoundTrip.ReemitIsIdentity` | parse/h265/nal.cc:68-122 | On arbitrary bytes: re-emitting the parsed raw units behind start codes and parsing again changes nothing. |
| `AnnexBRoundTrip.ParsedFaithful` | parse/h265/nal.cc:91-114 | Every unit returned holds no start code, does not end in zero, and is the reading of its own raw bytes. |
| `NalReference.ExactlyReadable` | parse/h265/nal.cc:68-122 | Any stream, as start-free bytes and then units behind start codes, empty and malformed ones included: exactly the units of two bytes or more with the first below 0x80 and the second no multiple of 8 are returned, in order. |
| `NalReference.HeaderRead` | parse/h265/nal.cc:91-114 | What a returned unit says, byte by byte: type, layer and temporal id of its two header bytes, and the payload bytes that emulation prevention leaves. |
| `AccessUnits.SplitAccessUnits` | pi/pi_hevc_backend_test.cc:45-65 | Returns the bytes of the access units of the stream's units. |
| `AccessUnits.SplittingLosesNothing` | pi/pi_hevc_backend_test.cc:45-65 | On arbitrary bytes, parsing the access units one by one and concatenating gives the units of the stream. |
| `AccessUnits.ConcatenationReparses` | pi/pi_hevc_backend_test.cc:45-65 | So does parsing the concatenation of the access units' bytes. |
| `AccessUnits.GroupedShape` | pi/pi_hevc_backend_test.cc:51-62 | No access unit has a boundary inside, and each begins where the one before had to end. |
| `NalReference.CutAtBoundaries` | pi/pi_hevc_backend_test.cc:51-62 | The groups are cut exactly where a type below 32 was seen and the next unit is of type 32 or above or has its first payload bit set. |
| `AccessUnits.GroupingUnique` | pi/pi_hevc_backend_test.cc:51-62 | The grouping is the only one of that shape. |
| `RawOffsets.RbspToRawBitOffset` | parse/h265/nal.cc:124-159 | Succeeds exactly when the offset is inside, with header bits + RBSP offset + 8 for each emulation byte dropped before, cut to 32 bits. |
| `RawOffsets.SliceDataAddressExact` | parse/h265/nal.cc:124-159 | For every accepted independent slice segment header: the raw address is inside, byte-aligned, holds the first slice-data byte (or is the unit's end), the raw bytes from it strip to the rest of the RBSP, and its distance from the RBSP address counts exactly the emulation bytes in the header. |
| `RawOffsets.LocateSliceData` | src/vaapi_h265_decoder.cc:692-707 | Parsing a header and converting its offset, each cut to 32 bits, yields that address if and only if it fits 32 bits, as in every unit below 2^29 bytes. |
| `Emulation.AddressExactIff` | parse/h265/nal.cc:139-149 | For any RBSP position: the counted address is the byte's own if and only if no emulation byte sits right at it. |
| `Emulation.AddressExample` | parse/h265/nal.cc:139-149 | For 00 00 03 01 the address of the third RBSP byte is that of the emulation byte. |
| `Emulation.AddressExact` | parse/h265/nal.cc:139-149 | After a nonzero RBSP byte the address is exact, to the end of the unit included. |
| `SliceHeaders.ParseSliceHeader` | parse/h265/slice_header.cc:129-466 | The result is slice_segment_header() of the buffer's bits; an accepted independent header has references in range, list entries below NumPicTotalCurr, a byte-aligned data offset, and a nonzero byte before the slice data. |
| `SliceHeaderRoundTrip.HeaderReadBack` | parse/h265/slice_header.cc:129-466 | For every codable header and every choice its encoder has, each field is read back and the slice data is found right behind the alignment. |
| `SliceHeaderExact.HeaderExact` | parse/h265/slice_header.cc:129-466 | For every bit string: an independent header is the result if and only if its fields, coded with some choices of an encoder, stand at the start with the slice data right behind. Every range check is in numbers, and nothing else is accepted or misread. |
| `SliceHeaderExact.DependentExact` | parse/h265/slice_header.cc:129-166 | A dependent segment is the result if and only if the PPS allows it and just its flags, PPS id and an address inside the picture stand there; every other field has its default. |
| `SliceHeaderExact.WidthIsLeast` | parse/h265/slice_header.cc:26-32 | A field for 0..n-1 has the least width whose values number at least n: both directions. |
| `SliceHeaderRoundTrip.LtRefsReadBack` | parse/h265/slice_header.cc:233-287 | Long-term entries, by SPS index or in full, with cycles coded as differences, are read back. |
| `SliceHeaderRoundTrip.LongTermCodedExactly` | parse/h265/slice_header.cc:233-287 | A long-term reference coded by the MSB distance of its POC resolves to its true POC, however many cycles away. |
| `SliceHeaders.CyclesDecode` | parse/h265/slice_header.cc:272-285 | The running sum, restarted at each group, gives every entry its own cycle. |
| `SliceHeaders.CeilLog2` | parse/h265/slice_header.cc:26-32 | The least width that holds 0..n-1. |
| `SliceHeaders.ReadLongTermRefs` | parse/h265/slice_header.cc:233-287 | The loop over long-term entries equals the syntax function. |
| `SliceHeaders.ReadSliceRps` | parse/h265/slice_header.cc:193-218 | The slice's short-term set, inline or by index, and the bit size recorded for it. |
| `SliceHeaders.ReadReferences` | parse/h265/slice_header.cc:188-293 | All reference fields of a non-IDR slice. |
| `SliceHeaders.CountTotal` | parse/h265/slice_header.cc:307-321 | NumPicTotalCurr is the count of used entries. |
| `SliceHeaders.ReadListsModification` | parse/h265/slice_header.cc:37-64 | ref_pic_lists_modification(): accepted entries are below NumPicTotalCurr and as many as are active. |
| `SliceHeaders.ReadActive` | parse/h265/slice_header.cc:304-343 | Active counts, defaulted or overridden, never above 15. |
| `SliceHeaders.ReadWeightTable` | parse/h265/slice_header.cc:70-125 | pred_weight_table(): all flags first, then per entry a weight and an offset for luma and one each for Cb and Cr where flagged, as the syntax function that HeaderReadBack and HeaderExact are about. |
| `SliceHeaders.ReadInterFields` | parse/h265/slice_header.cc:344-373 | The P and B fields after the active counts. |
| `SliceHeaders.ReadFilterFields` | parse/h265/slice_header.cc:375-413 | QP offsets, deblocking and loop filter fields with their defaults. |
| `SliceHeaders.ReadEntryPoints` | parse/h265/slice_header.cc:415-433 | Entry points are counted and skipped. |
| `SliceHeaders.ByteAlignment` | parse/h265/slice_header.cc:447-462 | Accepts exactly a one bit followed by zeros to the byte boundary. |
| `SliceHeaders.AlignedByteNonzero` | parse/h265/slice_header.cc:447-462 | So the byte before the slice data is not zero. |
| `RefLists.SubsetsCount` | parse/h265/slice_header.cc:307-321 | The three current subsets hold NumPicTotalCurr entries together, whatever the DPB holds. |
| `BitReaders.BitReader.ReadBits` | parse/bit_reader.h:21-37 | u(n), most significant bit first; over 32 bits nothing is read, past the end the buffer is used up. |
| `BitReaders.BitReader.ReadFlag` | parse/bit_reader.h:39-46 | One bit. |
| `BitReaders.BitReader.ReadUe` | parse/bit_reader.h:50-70 | ue(v) with at most 31 leading zeros: result, failure and position of the code. |
| `BitReaders.BitReader.ReadSe` | parse/bit_reader.h:73-82 | se(v), inside int32. |
| `BitReaders.BitReader.SkipBits` | parse/bit_reader.h:85-93 | Skips n bits, or uses the buffer up. |
| `BitReaders.BitReader.MoreRbspData` | parse/bit_reader.h:101-116 | True exactly when a set bit lies after the read position. |
| `Bits.UeRoundTrip` | parse/bit_reader.h:50-70 | Every value up to 2^32 - 2 is read back from its Exp-Golomb code. |
| `Bits.SeRoundTrip` | parse/bit_reader.h:73-82 | Every int32 but the most negative is read back. |
| `Bits.UeBound` | parse/bit_reader.h:48-69 | No code accepted overflows uint32. |
| `ExpGolomb.UeExact` | parse/bit_reader.h:50-70 | ue(v) is read exactly where the word of a value up to 2^32 - 2 stands. |
| `ExpGolomb.SeExact` | parse/bit_reader.h:73-82 | se(v) is read exactly where the word of an int32 above the most negative stands. |
| `ExpGolomb.UeWord` | parse/bit_reader.h:50-70 | The word of v, bit by bit: n zeros and the n + 1 bits of v + 1, most significant first. |
| `ExpGolomb.SeWord` | parse/bit_reader.h:73-82 | Positive numbers v have the word of 2v - 1, the others that of -2v. |
| `ExpGolomb.FixedWidth` | parse/bit_reader.h:21-37 | u(n) is read as v exactly where bit k weighs 2^(n - 1 - k). |
| `ExpGolomb.BufferBit` | parse/bit_reader.h:21-37 | Bit p of a buffer is bit 7 - p % 8 of byte p / 8. |
| `DiagScans.MakeDiagScan` | parse/h265/scaling_list.cc:80-99 | Terminates for every size and writes each of the n * n places once with the scan, cut to a byte; the rest of the buffer is untouched. |
| `DiagScans.ScanIsPermutation` | parse/h265/scaling_list.cc:80-99 | Cells and scan indices below n * n are matched one to one, for every n. |
| `DiagScans.ScanOrder` | parse/h265/scaling_list.cc:80-99 | The scan runs by x + y, then by increasing x: both directions. |
| `ScalingListReference.RasterOrder` | parse/h265/scaling_list.cc:80-99 | The same of raster positions p, with p % n for x and p / n for y. |
| `DiagScans.AllCells` | parse/h265/scaling_list.cc:80-99 | The 2n - 1 diagonals hold n * n cells. |
| `DiagScans.PositionsFit` | parse/h265/scaling_list.cc:88 | Up to size 16 the byte holds every position. |
| `ScalingLists.FillDefaultList` | parse/h265/scaling_list.cc:62-69 | One list and its DC become the default; every other list stays. |
| `ScalingLists.CopyList` | parse/h265/scaling_list.cc:71-76 | One list becomes another of its size, DC included; every other list stays. |
| `ScalingLists.SetDefaultScalingList` | parse/h265/scaling_list.cc:103-110 | All twenty lists become the defaults. |
| `ScalingLists.ReadCoefs` | parse/h265/scaling_list.cc:160-173 | Delta-coded values land in place at their raster positions; other rows stay. |
| `ScalingLists.ReadMatrix` | parse/h265/scaling_list.cc:123-173 | One list, default, copied or explicit, in place. |
| `ScalingLists.ParseScalingListData` | parse/h265/scaling_list.cc:112-177 | Succeeds exactly when the syntax does; the lists and the position are those of the syntax function. |
| `ScalingListReference.DefaultsAreTables` | parse/h265/scaling_list.cc:12-27 | Every default in scan order: flat 16 at 4x4, Table 7-6 of ITU-T H.265 above, intra for the first half of each size and inter for the second; DC 16. |
| `ScalingListReference.ExplicitMeaning` | parse/h265/scaling_list.cc:148-173 | The coefficients of an explicit list, in scan order, are the running sums of its coded deltas modulo 256, from 8 or from the DC coded before them. |
| `ScalingListReference.ExplicitExact` | parse/h265/scaling_list.cc:148-173 | An explicit list is accepted exactly where a DC in 1..255, when the size has one, and 16 or 64 deltas in -128..127 are coded. |
| `ScalingListReference.PredictedExact` | parse/h265/scaling_list.cc:127-147 | Without its flag a list is read exactly as the default for delta 0, or as the earlier list of its size that the delta names. |
| `ScalingListReference.ListPlaces` | parse/h265/scaling_list.cc:29-60 | Which list is where: six rows of each size up to 16x16 and two of 32x32, in coding order, and a DC for the last two sizes only. |
| `ScalingListRoundTrip.CodedListsReadBack` | parse/h265/scaling_list.cc:112-177 | Any mixture of default, copied and explicit lists is read back as what it denotes, whatever the lists held before. |
| `ScalingListRoundTrip.ExplicitListsReadBack` | parse/h265/scaling_list.cc:148-173 | For any byte matrices with DC in 1..255, wrapped deltas in diagonal order restore every coefficient and every DC. |
| `ScalingListRoundTrip.DefaultStream` | parse/h265/scaling_list.cc:132-133 | A stream of defaults gives exactly what SetDefaultScalingList gives. |
| `ScalingListRoundTrip.CopiesReadParsed` | parse/h265/scaling_list.cc:134-143 | A copy reads only a list of its size that this data has already set. |
| `ScalingListRoundTrip.CopyAcceptedIff` | parse/h265/scaling_list.cc:137-141 | Which copy distances are accepted, 32-bit multiplication included: those inside, and two more values at 32x32. |
| `ScalingListRoundTrip.EarlierListsDoNotMatter` | parse/h265/scaling_list.cc:112-177 | The result depends on the bits alone, not on what the lists held. |
| `SlidingWindow.RunWindowIsFifo` | src/vaapi_h264_decoder.cc:330-345 | Over every run whose references advance frame_num by one, for every window size below MaxFrameNum or one short of a multiple of it: the window is exactly the last max_num_ref_frames references since the last IDR or flush, oldest first. |
| `SlidingWindow.DropsOldestIff` | src/vaapi_h264_decoder.cc:330-340 | Those are the only sizes: sliding a full window drops the oldest reference if and only if its size is one of them. |
| `SlidingWindow.List0IsRecentHistory` | src/vaapi_h264_decoder.cc:200-208 | Over the same runs, with the window below MaxFrameNum, list 0 is that history, most recent first. |
| `SlidingWindow.VictimIsOldestIff` | src/vaapi_h264_decoder.cc:334-339 | For every window: the entry of lowest pic_num is the oldest if and only if there are fewer than MaxFrameNum references, or one less than a multiple of it. |
| `SlidingWindow.PicNumIsAge` | src/vaapi_h264_decoder.cc:200-203 | For every window: pic_num is the current frame_num less the age of the reference modulo MaxFrameNum. |
| `SlidingWindow.FrameNumExact` | src/vaapi_h264_decoder.cc:126-140 | frame_num is unwrapped to its true number if and only if fewer than MaxFrameNum numbers were skipped, through any number of wraps. |
| `SlidingWindow.RunNumbersExact` | src/vaapi_h264_decoder.cc:126-140 | Over every run, flushes and failed decodes included, of a stream that codes its frame numbers modulo MaxFrameNum and never goes back between IDRs: all numbers are unwrapped exactly if and only if no slice but an IDR skips MaxFrameNum of them. |
| `SlidingWindow.NumbersFromConfiguration` | src/vaapi_h264_decoder.cc:126-140 | The same from configuration, where the numbers start at 0. |
| `AvcReference.RunPocsExact` | src/vaapi_h264_decoder.cc:126-140 | Over the same runs: a reference gets twice its true number as POC and a non-reference one less, for all slices, if and only if no slice but an IDR skips 2^log2_max_frame_num numbers. |
| `AvcReference.LaterNumberHigherPoc` | src/vaapi_h264_decoder.cc:126-140 | Such POCs rise with the true numbers, and put a non-reference before the reference of its number. |
| `AvcReference.WindowSizes` | src/vaapi_h264_decoder.cc:330-333 | The window is max_num_ref_frames from 1 to 2^31 - 1, and one for 0 and for what an int takes for negative. |
| `AvcReference.List0IsLastCoded` | src/vaapi_h264_decoder.cc:200-208 | From configuration, for max_num_ref_frames positive and below 2^log2_max_frame_num: list 0 names the last that many references decoded, or all if fewer, most recent first. |
| `VaapiH264Decoders.AvcStepKeepsInv` | src/vaapi_h264_decoder.cc:185-346 | Every call keeps: is_reference holds exactly for the surfaces in dpb_, none twice. |
| `VaapiH264Decoders.AvcTargetExists` | src/vaapi_h264_decoder.cc:116-124 | In every state of the engine a surface is free whenever the pool exceeds references + checked out + 1. |
| `AvcConsumer.TargetLeavesConsumerAlone` | src/vaapi_h264_decoder.cc:116-124 | From configuration, over every run: the surface of the next slice is none handed out and not taken back, not the parked one and none of the window; it is found whenever there is such a surface. |
| `AvcConsumer.AcquireHandsParked` | src/vaapi_h264_decoder.cc:421-445 | Over every run Acquire hands out what the calls say is parked, when its dma-buf exists or can be made. |
| `VaapiH264Decoders.VaapiH264Decoder.ComputePoc` | src/vaapi_h264_decoder.cc:126-140 | Picture order count type 2 from the unwrapped frame_num. |
| `VaapiH264Decoders.VaapiH264Decoder.NumberReferences` | src/vaapi_h264_decoder.cc:200-203 | Every entry's pic_num relative to the current frame_num. |
| `VaapiH264Decoders.VaapiH264Decoder.SortedList` | src/vaapi_h264_decoder.cc:204-208 | A permutation of the window in descending pic_num. |
| `VaapiH264Decoders.VaapiH264Decoder.SlideWindow` | src/vaapi_h264_decoder.cc:330-340 | A full window loses its entry of lowest pic_num, and only that surface its mark. |
| `VaapiH264Decoders.VaapiH264Decoder.DecodeSlice` | src/vaapi_h264_decoder.cc:142-347 | One slice end to end for every libva outcome: state, result and list 0. |
| `VaapiH264Decoders.VaapiH264Decoder.Acquire` | src/vaapi_h264_decoder.cc:421-445 | Hands out the parked frame if its surface could be exported. |
| `VaapiH264Decoders.VaapiH264Decoder.Flush` | src/vaapi_h264_decoder.cc:457-465 | References and the parked frame are gone. |
| `M2mOwnership.QueuesConserved` | src/v4l2_m2m_decoder.cc:231-280 | With a driver that returns only what it was given and a caller that releases only what it holds and holds nothing at Flush: OUTPUT buffers partition into free and in-driver, a CAPTURE buffer is in at most one of driver, ready queue and caller, and frames come out first in, first out. |
| `M2mOwnership.RunIsFifo` | src/v4l2_m2m_decoder.cc:461-489 | Frames handed out since the last flush, then those still ready, are exactly the frames dequeued since, in order. |
| `M2mOwnership.StepConserves` | src/v4l2_m2m_decoder.cc:415-594 | Every call, refused ioctls included, conserves both pools. |
| `M2mOwnership.HeldAtFlush` | src/v4l2_m2m_decoder.cc:583-589 | Why the caller must hold nothing at Flush: a held buffer is given to the driver. |
| `M2mBuffers.CapturesConserved` | src/v4l2_m2m_decoder.cc:547-594 | From creation, while QBUF accepts what it is offered: every CAPTURE buffer is in exactly one place, with the driver, in the ready queue or with the caller; so a released buffer is with the driver again. |
| `M2mBuffers.SubmitAnswers` | src/v4l2_m2m_decoder.cc:231-280 | Of any state of the run: an access unit is refused for now exactly while the driver has every OUTPUT buffer; it is accepted exactly when it is not empty, fits the buffer freed last and QBUF accepts, and that buffer is then the driver's. |
| `M2mBuffers.EventAnswers` | src/v4l2_m2m_decoder.cc:425-443 | The first resolution event of all sets CAPTURE up, every later one is a change of source, and a failing setup fails the pump. |
| `M2mOwnership.FramesCarryTokens` | src/v4l2_m2m_decoder.cc:482-487 | Frames carry the 64-bit tokens whose two halves the driver copied. |
| `M2mOwnership.RunHandsOutTokens` | src/v4l2_m2m_decoder.cc:482-528 | Over every run with a driver that stamps frames with the halves of tokens it was given: each frame handed out carries the 64-bit token of an access unit accepted before it. |
| `M2mOwnership.TokensFromCreation` | src/v4l2_m2m_decoder.cc:482-528 | The same from creation, where no token is out. |
| `V4l2M2mDecoders.TokenSurvives` | src/v4l2_m2m_decoder.cc:255-261 | Every 64-bit token survives the split into seconds and microseconds, and both halves fit their fields. |
| `V4l2M2mDecoders.V4l2M2mDecoder.SubmitBitstream` | src/v4l2_m2m_decoder.cc:231-280 | Result, free list and request for every input size and QBUF answer. |
| `V4l2M2mDecoders.V4l2M2mDecoder.Drive` | src/v4l2_m2m_decoder.cc:415-491 | Events, reclaimed OUTPUT buffers and dequeued frames, in the order of the source. |
| `V4l2M2mDecoders.V4l2M2mDecoder.SetupCapture` | src/v4l2_m2m_decoder.cc:343-406 | What each failing step leaves behind. |
| `V4l2M2mDecoders.V4l2M2mDecoder.Acquire` | src/v4l2_m2m_decoder.cc:493-528 | Pops the oldest ready frame. |
| `V4l2M2mDecoders.V4l2M2mDecoder.Release` | src/v4l2_m2m_decoder.cc:547-555 | Requeues a buffer not already queued. |
| `V4l2M2mDecoders.V4l2M2mDecoder.Flush` | src/v4l2_m2m_decoder.cc:557-594 | Every OUTPUT buffer is free again, every CAPTURE buffer offered, the ready queue empty. |

## Left out

- ioctl, mmap, poll, dma-buf export and libva calls: they are outcome parameters; the driver is assumed to return only buffers it was given.
- NAL dispatch in the engines' SubmitBitstream (parameter set activation, grouping of slices into pictures, end-of-sequence units): it would add easy members; an engine call takes the parsed headers of one picture, and SPS changes and end of sequence are calls of their own.
- FillSps, FillPps, BuildSliceContext, flag packing and the copies into VA and V4L2 structures: field-by-field moves.
- Weighted-prediction arithmetic (derived weights and offsets): its shifts need bounds that the parser does not enforce. The coded weights themselves are part of the header model.
- VUI, HRD, profile and level, and most SPS and PPS fields: straight-line reads.
- Dependent slice segments beyond their address: their header ends there and has no slice-data offset.
- The H.264 parsers and the exactness of H.264 raw offsets: slice data may start inside a byte there. The H.264 engine is modelled with one slice per picture, as the code decodes it, and a fixed SPS.
- The fixed-size out arrays of ParseShortTermRps and of the slice header are sequences that the methods build up; that no index leaves them is part of the sequences' length bounds.
- Pool buffers and surfaces are values in a sequence that the methods reassign; aliasing between a buffer's memory and its consumers is not modelled.
- Integers are unbounded except where the source wraps or truncates (Exp-Golomb codes, timestamps, raw offsets, tile sizes, copy distances, scan bytes); the int32 range of POCs is the subject of PocPartsFit and of the bounds on reference picture sets.
- Frame sizes, formats, colorimetry and dma-buf descriptors handed out by Acquire: copies. Logging is left out.
- The contents of OUTPUT buffers and the concatenated slice buffer: copies.
- The webrtc wrappers, factories, encoders, GL, EGL and KMS tools.
- StatelessOutput.DrainedRunSorted: covers one coded video sequence starting with nothing pending; SequencesInOrderIff covers several, with a condition on each arrival instead of a count.
- SlidingWindow.RunWindowIsFifo: takes references that advance frame_num by one, as streams without gaps do, and a window size at which, as DropsOldestIff shows, the numbers tell the oldest.
- SlidingWindow.List0IsRecentHistory: takes a window below MaxFrameNum; at other sizes entries of equal pic_num come in any order.
