# RustScreen, modelled and proved in Dafny

RustScreen streams H.264 from a Mac to a phone over USB. This project models the platform-free core
under its hardware adapters and proves what that core is for. Each module follows one component of the
repository:

- `AnnexB`, `AnnexBTheorems`, `ParameterSets`, `AccessUnits`, `Avcc`: the H.264 byte stream. Start codes
  and NAL units, parameter sets, access units, and the rewriting of length-prefixed streams.
- `Bits`, `EmulationPrevention`, `Sps`, `SpsParser`, `SpsSoundness`, `SpsOverflow`, `SpsExample`: the bit-level
  parser of sequence parameter sets, against a printer written after sections 7.3.1, 7.3.2.1.1 and 9.1 of the
  H.264 standard, and a recorded set.
- `EncoderPacing`: the capture delegate and the encoder's output handler as atomic steps of concurrent
  threads.
- `HostStream`, `ClientSession`, `ClientTheorems`, `ClientLog`, `VideoPath`, `ByteLink`, `EndToEnd`: the two session
  loops, and the way of a frame from the encoder, over the bytes of the connection, to the decoder.
- `Messages`, `Wires`, `SendSession`: frames, negotiation, handshake and the flushing of buffered writes.
- `Framing`, `Transport`, `EchoProtocol`: length-prefixed frames over a descriptor that drops what
  overflows a read, and the echo exchange over bounded FIFOs.
- `SurfaceHandOff`: the render surface on its way from the UI thread to the session thread.
- `PipelineLatency`, `LatencyStats`, `StatsTracker`, `Clock`, `Touch`: bookkeeping that must agree with
  something simpler.

Loops and objects of the source are methods and classes here, each proved against a specification
function; the theorems are lemmas about those functions, for all inputs or all runs. Concurrent parts are
state machines: a run is any interleaving of atomic steps under sequential consistency.

Where the code does less than its documentation says, the model follows the code. A lemma gives an input
that shows it, and another says exactly when the promise holds:

- Past 2^63 the cast of a clock offset wraps (`Clock.FarClockWraps`; exactly when the estimate is right:
  `Clock.AccurateIff`).
- The offset error of a clock exchange is documented as at most half the round trip. Halving rounds, so
  with an odd round trip it can be half a microsecond more (`Clock.HalfRoundTripExceeded`; exactly when:
  `Clock.WithinHalfIff`, `Clock.SurelyWithinHalfIff`).
- A read of the accessory descriptor that is interrupted leaves the resized buffer behind, and a retry
  serves its zeros as data, unless the drained buffer was a full chunk
  (`Transport.InterruptedReadServesZeros`; exactly when: `Transport.ServedIsDeliveredIff`). The properties of
  frames and echo are stated for the bytes that are served.
- A submission the encoder refuses uses up the request for a keyframe, and a failed callback makes none
  (`EncoderPacing.RefusalLosesRequest`, `EncoderPacing.FailureRequestsNothing`). A lost frame is sure to be
  recovered from exactly when a request is pending or its own drop is just being reported
  (`EncoderPacing.RecoveryIffArmed`).
- A presentation time that is used again while its old key still lies in the eviction queue makes the
  eviction drop the wrong frame (`PipelineLatency.LeftoverKeyEvictsYounger`; exactly when:
  `PipelineLatency.RunRefinesIff`).
- A move that the host refuses, of a second finger or with a coordinate that is not finite, can replace the
  buffered move and so lose the last drag (`Touch.SecondFingerHidesLastDrag`,
  `Touch.BadCoordinateHidesLastDrag`; exactly when: `Touch.LastDragsSurviveIff`).
- A malformed parameter set is documented to degrade to None rather than to panic. The sum that walks a
  scaling list is not checked, so a debug build can panic, on complete sets and on cut-off ones
  (`SpsOverflow.SteepListPanics`, `SpsOverflow.CutOffSetPanics`; exactly when, for all bytes:
  `SpsOverflow.PanicsIff`).
- A session seeded while a window replaces another one can end up on the old window
  (`SurfaceHandOff.OldWindowShown`; exactly when: `SurfaceHandOff.ShownIffFresh`).
- The two keyframe tests differ on units with an embedded start code (`Avcc.KeyframeOfConverted`,
  `Avcc.ProbesDisagree`).

## Model

| member | source | states |
|---|---|---|
| `AnnexB.FirstMarkerMeaning` | crates/protocol/src/nal.rs:460-473 | the specification of the scan finds a marker exactly when there is one, and then the first |
| `AnnexB.FindStartCode` | crates/protocol/src/nal.rs:460-473 | the loop finds a start code exactly when there is one at or after the position; what lies before it is the data without the zeros that belong to the start code, and the data behind it begins just past its 00 00 01 |
| `AnnexB.NalUnits.Next` | crates/protocol/src/nal.rs:475-511 | each call yields the next unit of the stream and leaves exactly the others; at the end it yields nothing, again and again |
| `AnnexBTheorems.ScanRoundTrip` | crates/protocol/src/nal.rs:43-55 | for every list of NAL units as section 7.4.1 of H.264 allows them, behind any mix of 3- and 4-byte start codes and after any junk without a start code, the scanner returns exactly that list |
| `AnnexBTheorems.ScanSerialized` | crates/protocol/src/nal.rs:43-55 | for units that may end in zeros: every unit but the last loses just these zeros, and units that were nothing but zeros disappear |
| `AnnexBTheorems.SpansExact` | crates/protocol/src/nal.rs:475-511 | on arbitrary bytes a range is yielded if and only if it starts just past a marker, is not empty, and ends at the end of the stream or at the zeros in front of the next marker |
| `AnnexBTheorems.SpansApart` | crates/protocol/src/nal.rs:475-511 | on arbitrary bytes the ranges are in order, disjoint and at least a start code apart |
| `AnnexBTheorems.UnitsAreSlices` | crates/protocol/src/nal.rs:475-511 | the units are the bytes of those ranges, in that order |
| `AnnexBTheorems.UnitIsSpan` | crates/protocol/src/nal.rs:43-55 | every unit of an arbitrary stream is such a range and holds no start code |
| `AnnexBTheorems.TypePresence` | crates/protocol/src/nal.rs:73-77 | a stream holds a unit of a non-zero type if and only if some start code stands directly before a header byte of that type |
| `ParameterSets.ExtractCodecConfig` | crates/protocol/src/nal.rs:79-98 | the early-exit loop returns the first SPS and the first PPS among the units of the stream, and nothing when either is missing |
| `ParameterSets.HasInBandConfig` | crates/protocol/src/nal.rs:364-388 | the loop answers whether the stream holds both an SPS and a PPS unit, in any order |
| `ParameterSets.IsKeyframe` | crates/protocol/src/nal.rs:359-362 | the search answers whether the stream holds an IDR slice |
| `ParameterSets.ToAnnexBAccessUnit` | crates/protocol/src/nal.rs:427-453 | an empty payload is refused, a bare keyframe gets the stored parameter sets in front, everything else passes unchanged |
| `ParameterSets.AccessUnitBytes` | crates/protocol/src/nal.rs:427-453 | what the decoder gets for a frame that is not empty: its own bytes, and in front of them the stored SPS and PPS behind 4-byte start codes exactly when it is a keyframe that carries none and a config is stored |
| `ParameterSets.ConfigIffSelfDescribing` | crates/protocol/src/nal.rs:364-388 | a config can be extracted exactly from the streams that carry one in band |
| `ParameterSets.ExtractedIsTyped` | crates/protocol/src/nal.rs:79-98 | whatever is extracted is an SPS and a PPS without embedded start codes |
| `ParameterSets.ExtractedIsFirst` | crates/protocol/src/nal.rs:79-98 | no unit of that type stands before the one extracted |
| `ParameterSets.KeyframeIff` | crates/protocol/src/nal.rs:359-362 | on arbitrary bytes: a stream is a keyframe if and only if one of its NAL units has a header byte of type 5 |
| `ParameterSets.KeyframeUnitDescribesItself` | crates/protocol/src/nal.rs:411-426 | every keyframe access unit built with a config carries parameter sets |
| `ParameterSets.KeyframeUnitIdempotent` | crates/protocol/src/nal.rs:411-426 | building such an access unit again, with any config, changes nothing |
| `ParameterSets.ConfigUnits` | crates/macos-host/src/session.rs:653-668 | scanning a serialised config yields two units, the SPS without its trailing zeros and the PPS whole |
| `ParameterSets.ConfigRoundTrip` | crates/macos-host/src/session.rs:653-668 | serialising a config and extracting it gives it back if and only if its SPS does not end in zero |
| `ParameterSets.InjectedConfigComesOut` | crates/protocol/src/nal.rs:411-426 | for well-formed sets in front of any start-code framed bare keyframe, exactly these sets come out first and the picture units follow unchanged |
| `Avcc.ReadLength` | crates/macos-host/src/encode_vt.rs:71-75 | the shifting loop computes the big-endian value of the prefix |
| `Avcc.NextUnit` | crates/macos-host/src/encode_vt.rs:70-84 | one step of the walk agrees with the list of units of the rest: it ends it, skips an empty unit, or takes the first |
| `Avcc.ForEachAvccNal` | crates/macos-host/src/encode_vt.rs:58-90 | the walk ends on every input and shows the callback the complete units in order, up to the one it refuses; widths other than 1 to 4 show none |
| `Avcc.AvccToAnnexB` | crates/macos-host/src/encode_vt.rs:52-56 | the result is the walked units, each behind a 4-byte start code |
| `Avcc.AvccHasIdr` | crates/macos-host/src/encode_vt.rs:104-119 | the early-exit probe answers whether any walked unit is an IDR slice |
| `Avcc.ToAnnexBFrame` | crates/macos-host/src/encode_vt.rs:137-161 | the converted picture, behind SPS and PPS on a keyframe |
| `Avcc.FrameHoldsPicture` | crates/macos-host/src/encode_vt.rs:133-161 | for well-formed units written with length prefixes: scanning the built frame gives these units on a delta, and the SPS, the PPS and then these units on a keyframe |
| `Avcc.AvccRoundTrip` | crates/macos-host/src/encode_vt.rs:33-51 | for each width 1 to 4, units written with length prefixes are walked again in order, without empty ones and whatever truncated tail follows |
| `Avcc.AvccToAnnexBRoundTrip` | crates/macos-host/src/encode_vt.rs:33-51 | converting well-formed units and scanning the result gives the list back |
| `Avcc.KeyframeOfConverted` | crates/macos-host/src/encode_vt.rs:104-119 | for every buffer, truncated or not: the converted stream is a keyframe if and only if the probe says so or some unit hides an IDR start code in itself |
| `Avcc.ProbesAgree` | crates/macos-host/src/encode_vt.rs:104-119 | both keyframe tests agree on every buffer whose units hold no start code |
| `Avcc.ProbesDisagree` | crates/macos-host/src/encode_vt.rs:104-119 | a concrete buffer with an embedded start code on which they disagree |
| `Avcc.KeyframeCarriesConfig` | crates/macos-host/src/encode_vt.rs:121-131 | a keyframe built from a picture without embedded start codes yields exactly the well-formed sets it was built with |
| `AccessUnits.StartCodeOffsets` | crates/protocol/src/nal.rs:149-164 | the offsets are all markers of the stream, in increasing order |
| `AccessUnits.SplitAccessUnits` | crates/protocol/src/nal.rs:109-147 | the loop cuts the stream, from its first start code on, exactly where an opening NAL unit follows whose last opening predecessor is a slice |
| `AccessUnits.OpeningTypes` | crates/protocol/src/nal.rs:121-136 | the marked units that may open an access unit are those of types 1, 5, 6, 7, 8 and 9, and the slices among them those of types 1 and 5 |
| `AccessUnits.UnitsConcatenate` | crates/protocol/src/nal.rs:100-108 | the access units concatenate to the stream from its first start code on |
| `AccessUnits.OneSliceEach` | crates/protocol/src/nal.rs:100-108 | every access unit except the last holds exactly one slice, and the last at most one |
| `AccessUnits.LeadersJoinNextSlice` | crates/protocol/src/nal.rs:100-108 | for two neighbouring slices there is an access unit that holds the later one with its header and begins at the first SPS, PPS, SEI, delimiter or slice behind the earlier one, so that everything leading shares a unit with the later slice |
| `Bits.BitReader.U` | crates/protocol/src/nal.rs:323-333 | reads the next bits as a number below 2^32 and moves past them, or reports exhaustion |
| `Bits.BitReader.CountZeros` | crates/protocol/src/nal.rs:336-343 | counts the zeros in front of a code and stops just behind its first one bit; more than 31 zeros and exhaustion are refused |
| `Bits.BitReader.Ue` | crates/protocol/src/nal.rs:335-349 | agrees with the unsigned Exp-Golomb code on the bits left, with every intermediate value inside 32 bits |
| `Bits.BitReader.Se` | crates/protocol/src/nal.rs:351-356 | agrees with the signed code, inside 32 bits |
| `Bits.UeRoundTrip` | crates/protocol/src/nal.rs:335-349 | the reader undoes the code of section 9.1 of H.264 for every value below 2^32 - 1, whatever bits follow |
| `Bits.UeReadsOnlyCodes` | crates/protocol/src/nal.rs:335-349 | whatever the reader accepts is the code of the value it returns, and that value is below 2^32 - 1 |
| `Bits.SeRoundTrip` | crates/protocol/src/nal.rs:351-356 | the signed reader undoes the signed code of section 9.1.1 |
| `Bits.PackRoundTrip` | crates/protocol/src/nal.rs:310-321 | bits packed into bytes are the bits the reader sees |
| `EmulationPrevention.RemoveEmulationPrevention` | crates/protocol/src/nal.rs:190-202 | the loop drops the 03 behind every two zeros and nothing else |
| `EmulationPrevention.RemovesExactly` | crates/protocol/src/nal.rs:190-202 | on arbitrary bytes: exactly the 03 bytes with two zeros directly in front of them are removed, and the rest keeps its order |
| `EmulationPrevention.EscapeRoundTrip` | crates/protocol/src/nal.rs:190-202 | removing undoes inserting as section 7.4.1 of H.264 prescribes it, for all bytes |
| `EmulationPrevention.EscapedNalHoldsNoMarker` | crates/protocol/src/nal.rs:190-202 | an escaped payload behind a non-zero header byte holds no start code |
| `Sps.HighProfilesAre` | crates/protocol/src/nal.rs:212-215 | the profiles whose sets hold a chroma format are the thirteen listed |
| `Sps.LegalDeltaStaysInRange` | crates/protocol/src/nal.rs:231-240 | a scaling-list delta in its legal range keeps the 32-bit sum exact and the scale within 0 to 255 |
| `Sps.DeltaWrapsIff` | crates/protocol/src/nal.rs:236 | which deltas make one of the two 32-bit sums overflow, exactly, for any last scale the walk can reach |
| `Sps.ListsRoundTrip` | crates/protocol/src/nal.rs:224-244 | the list walk consumes exactly the bits of every matrix of legal lists |
| `Sps.HighRoundTrip` | crates/protocol/src/nal.rs:210-245 | reading back the high-profile fields gives the chroma format and stops just behind them |
| `Sps.OrderRoundTrip` | crates/protocol/src/nal.rs:247-259 | the same for all three picture order types |
| `Sps.CroppedSizeIsPictureSize` | crates/protocol/src/nal.rs:271-307 | the checked arithmetic yields the cropped size of section 7.4.2.1.1 and Table 6-1 of H.264, or None exactly where the coded size does not fit 32 bits or more is cropped than there is; a size cropped to exactly zero is returned |
| `SpsParser.SpsDimensions` | crates/protocol/src/nal.rs:186-308 | the walk through the fields agrees with the reading functions on every byte string, legal or not |
| `SpsParser.SpsNalIsWellFormed` | crates/protocol/src/nal.rs:174-185 | a written parameter set holds no start code and does not end in zero |
| `SpsParser.SpsRoundTrip` | crates/protocol/src/nal.rs:174-185 | for every parameter set the syntax can express (all profiles, scaling lists, order types, croppings and any trailing fields), written, escaped and parsed, the parser returns the picture size the standard defines |
| `SpsSoundness.DimensionsIff` | crates/protocol/src/nal.rs:174-185 | on arbitrary bytes: a size is returned if and only if the bytes are an SPS that some fields print as (with deltas and order types outside the standard among them), and it is the size the standard defines for these fields |
| `SpsOverflow.PanicsIff` | crates/protocol/src/nal.rs:231-240 | on arbitrary bytes, complete or cut off: a debug build panics if and only if they are an SPS that begins with some fields, whole scaling lists, and deltas of which the last one makes a sum leave 32 bits |
| `SpsOverflow.PrintedPanicsIff` | crates/protocol/src/nal.rs:231-240 | on a complete parameter set it does if and only if a sum of one of its scaling lists leaves 32 bits |
| `SpsOverflow.LegalNeverPanics` | crates/protocol/src/nal.rs:231-240 | it never does on a parameter set the standard allows |
| `SpsOverflow.SteepListPanics` | crates/protocol/src/nal.rs:271-276 | a parameter set, of 1280 by 720, on which a debug build panics and a release build returns the size |
| `SpsOverflow.CutOffSetPanics` | crates/protocol/src/nal.rs:271-276 | thirteen bytes, a parameter set cut off behind its first delta, on which a debug build panics and a release build returns None |
| `SpsParser.SizeThroughAnnexB` | crates/protocol/src/nal.rs:174-185 | the same through an Annex-B stream: extracted from between start codes, the parameter set still yields that size |
| `SpsExample.ClipIs2400By1080` | crates/protocol/src/nal.rs:819-827 | a recorded parameter set, the one of the repository's own unit test, is bit for bit what the printer writes for its fields, and the parser reads 2400 by 1080 |
| `EncoderPacing.InFlightBounded` | crates/macos-host/src/serve.rs:132-145 | at every point of every interleaving the in-flight counter equals the frames it stands for, is never negative and never above 2 |
| `EncoderPacing.CaptureAdmitsIff` | crates/macos-host/src/serve.rs:132-145 | in every interleaving a captured frame is admitted exactly if the encoder holds fewer than two |
| `EncoderPacing.RequestIsServed` | crates/macos-host/src/serve.rs:239-252 | after a request of the phone, unless a forced frame is refused, the next frame submitted is forced; or the one behind it, where an unforced one was already in hand |
| `EncoderPacing.RequestLeadsToKeyframe` | crates/macos-host/src/serve.rs:739-757 | from any point of any run the phone can ask, and the threads can go on, without a refusal, to a forced frame |
| `EncoderPacing.EveryRunDrains` | crates/macos-host/src/serve.rs:132-247 | no interleaving gets stuck: from any point the threads can finish, without a capture, a refusal or a failure, until every frame submitted has its fate, every frame sent was received and nothing is in flight |
| `EncoderPacing.RecoversAfterDrop` | crates/macos-host/src/serve.rs:226-247 | in every interleaving without a refused forced frame, at most two of the frames submitted behind a dropped one come before a forced one |
| `EncoderPacing.RecoveryIffArmed` | crates/macos-host/src/serve.rs:226-272 | for any reachable state and any frame lost in it, dropped or failed, with at most two unforced ones behind it: every continuation without a refused forced frame keeps it at two if and only if a request is pending, in the flag or in hand, or the drop of that frame is just being reported |
| `EncoderPacing.UnarmedMayLapse` | crates/macos-host/src/serve.rs:226-272 | with no request pending and no drop being reported, any number of unforced frames may follow from any reachable state, without a refusal |
| `EncoderPacing.RecoveryStaysPending` | crates/macos-host/src/serve.rs:226-247 | until a forced frame is submitted, the request is never lost: it is in the flag, in the delegate, or about to be raised |
| `EncoderPacing.ChannelKeepsOrder` | crates/macos-host/src/serve.rs:217-236 | what the consumer received and what waits in the channel are exactly the sent frames in encode order, at most two of them waiting |
| `EncoderPacing.DroppedIffBehind` | crates/macos-host/src/serve.rs:217-236 | in every interleaving an encoded frame is dropped exactly if two frames sent before it were not received yet |
| `EncoderPacing.RefusalLosesRequest` | crates/macos-host/src/serve.rs:242-272 | a refused submission uses the flag up: for every n there is a run with n unforced frames behind a dropped one |
| `EncoderPacing.FailureRequestsNothing` | crates/macos-host/src/serve.rs:176-207 | a failed callback raises nothing: for every n there is a run without refusals with n unforced frames behind the lost one |
| `HostStream.CoalescedTail` | crates/macos-host/src/session.rs:411-430 | coalescing keeps a tail of the backlog, all of it without a keyframe, and otherwise exactly from the last keyframe on |
| `HostStream.SendEncodedFrame` | crates/macos-host/src/session.rs:625-651 | the config is cached from the first keyframe, precedes every keyframe, and everything is flushed; a failing transport leaves a beginning of that on the wire |
| `HostStream.SendBacklog` | crates/macos-host/src/session.rs:540-575 | the inner loop sends the coalesced backlog, or drops all of it when no keyframe was seen yet |
| `HostStream.HandleBacklog` | crates/macos-host/src/session.rs:523-575 | draining and coalescing one backlog sheds exactly the frames a later keyframe replaces, and the counts add up |
| `HostStream.RunStreamSession` | crates/macos-host/src/session.rs:460-597 | for every series of backlogs, timeouts and endings the wire carries the specified frames, or a beginning of them on an error; frames sent and dropped add up to the frames taken, and the byte count to what was written |
| `HostStream.SentChain` | crates/macos-host/src/session.rs:411-430 | for every batching of the channel: the frames sent are frames taken, in order; the first is a keyframe; and the channel predecessor of every delta sent was sent just before it |
| `HostStream.NotSentIff` | crates/macos-host/src/session.rs:540-575 | a frame taken off the channel is not sent if and only if a keyframe stands behind it in its own backlog, or no frame up to the end of that backlog is a keyframe |
| `HostStream.StreamVideos` | crates/macos-host/src/session.rs:619-651 | the Video frames on the wire are exactly the frames sent, in order |
| `HostStream.StreamAnnounced` | crates/macos-host/src/session.rs:619-651 | once the first keyframe carries parameter sets, each keyframe Video is directly preceded by a VideoConfig, and all of them carry these sets |
| `HostStream.StreamConfigsLead` | crates/macos-host/src/session.rs:619-651 | on the wire a VideoConfig comes only directly before a keyframe Video |
| `HostStream.StreamBeats` | crates/macos-host/src/session.rs:576-597 | the frames on the wire that are neither config nor video are the heartbeats, one for each timeout |
| `HostStream.FinalConfigIsFirst` | crates/macos-host/src/session.rs:625-651 | the config held at the end is the one of the first keyframe sent that could give one |
| `ClientSession.InputPacer.Admit` | crates/android-client/src/pacing.rs:58-76 | feeds keyframes always and deltas only out of drop mode and below the cap, requests a keyframe only on entering drop mode, and ends in drop mode unless it fed |
| `ClientSession.InputPacer.ResyncToKeyframe` | crates/android-client/src/pacing.rs:84-86 | enters drop mode |
| `ClientSession.DecodeSession.FeedConfigFrame` | crates/android-client/src/decode.rs:245-269 | the stored config, the calls made and the result for every config frame, accepted or refused by the decoder |
| `ClientSession.DecodeSession.FeedVideoFrame` | crates/android-client/src/decode.rs:282-318 | the same for every video frame, with the errors for a missing config, an empty payload and a refusing decoder |
| `ClientSession.ReceiveLoop.PollSurface` | crates/android-client/src/session.rs:330-341 | a swap requests a keyframe and enters drop mode, unless the request cannot be written |
| `ClientSession.ReceiveLoop.OnVideo` | crates/android-client/src/session.rs:355-403 | admission, request, arrival stamp, feed or pump of one Video, and the Stats of the frames presented meanwhile |
| `ClientSession.ReceiveLoop.OnFrame` | crates/android-client/src/session.rs:352-439 | the routing of every received frame |
| `ClientSession.ReceiveLoop.RunSession` | crates/android-client/src/session.rs:322-444 | the loop over any turns ends in the specified state: pacer, decode session, decoder calls, latency tracker, counters and uplink |
| `ClientTheorems.RunAppend` | crates/android-client/src/session.rs:322-444 | a run goes on exactly where a shorter one stopped |
| `ClientTheorems.RunPaces` | crates/android-client/src/pacing.rs:48-86 | over all runs, through every error and ending: which Videos are let through is what a pacer on its own decides from the swaps, the keyframe flags and the input depths of the turns that got as far as their read |
| `ClientLog.CallsAreLogged` | crates/android-client/src/decode.rs:245-318 | over all runs without an error, call for call: the decoder is configured when and only when sets become known that differ from those before; each Video let through is decoded in order, with its time, its flag and its own bytes, behind the known sets only where it is a keyframe that carries none; for each one dropped the decoder is pumped |
| `ClientLog.TrackerIsTold` | crates/android-client/src/session.rs:371-403 | over all runs without an error the latency tracker was told of each Video let through, with the arrival time of its turn, and of each frame presented, with its decode and presentation times, in this order and of nothing else |
| `ClientLog.CountersExact` | crates/android-client/src/session.rs:352-389 | over all runs without an error the counters are the frames read and the keyframes among them |
| `ClientLog.PingsAreAnswered` | crates/android-client/src/session.rs:412-422 | over all runs without an error each ping is answered once, in order, with its own time and the two clock readings of its turn |
| `ClientLog.FinishedIff` | crates/android-client/src/session.rs:342-351 | a session ends well exactly when one of its turns, with the surface poll fine, brings the end of the stream or a farewell, and reports a deliberate stop exactly for the farewell |
| `ClientTheorems.FedDeltaHasPredecessor` | crates/android-client/src/pacing.rs:48-86 | over all runs: the Video received just before a delta that is fed was fed too, unless the delta is the first Video |
| `ClientTheorems.FirstFedAfterSwap` | crates/android-client/src/pacing.rs:78-86 | from any point of any run the first frame fed after a surface swap is a keyframe |
| `ClientTheorems.RequestsExact` | crates/android-client/src/session.rs:330-369 | over all runs without an error, keyframe requests equal surface swaps plus drop episodes begun while not already dropping |
| `ClientTheorems.StatsAreReports` | crates/android-client/src/session.rs:389-403 | over all runs without an error the Stats sent are exactly the reports of the latency tracker, each once and in order |
| `ClientTheorems.StatsOfFedFrames` | crates/android-client/src/session.rs:371-380 | over all runs, however they end, every Stats frame sent is about a Video that was received and let through to the decoder |
| `ClientTheorems.DecodedOrDropped` | crates/android-client/src/session.rs:355-389 | over all runs without an error, decoded and dropped count exactly the fed and the dropped Videos and add up to those received |
| `VideoPath.SessionSound` | crates/android-client/src/decode.rs:160-193 | over all runs, however they end: configured holds exactly when a config is stored, the config is a proper SPS and PPS, and every keyframe handed to the decoder describes itself |
| `VideoPath.PingedStreamConnects` | crates/macos-host/src/serve.rs:772-826 | a client that read a beginning of any pings and then the stream, as on each connection of the daemon, meets the hypothesis of the end-to-end theorems |
| `ByteLink.BeginningReadsBeginning` | crates/protocol/src/framing.rs:58-92 | whatever beginning of serialized frames arrives, the frames read are the first ones written |
| `ByteLink.BytesConnect` | crates/macos-host/src/serve.rs:772-826 | from the bytes on: when offer, pings and stream are written and any beginning of their bytes comes over in any transfers, a client that decodes the offer and some of what follows meets that hypothesis |
| `VideoPath.ReceivedWereSent` | crates/macos-host/src/session.rs:619-651 | whatever pings come in between, a client that read any beginning of the host's output received exactly the first frames the host sent |
| `VideoPath.EveryFedFrameChains` | crates/macos-host/src/session.rs:411-430 | host and client together: every frame that reaches the decoder chains back, through neighbouring frames of the encoder's channel that all reached it, to a keyframe that reached it |
| `EndToEnd.FedFramesChainInEncoder` | crates/macos-host/src/serve.rs:226-247 | capture, host and client together, without a refused forced frame or a failed callback: every frame that reaches the decoder chains back, through frames that all reached it, to a keyframe that did, and these are neighbours in the encoder's own order or the frame stands at most two behind one the full channel dropped since that keyframe |
| `EndToEnd.GapIsRecentDrop` | crates/macos-host/src/serve.rs:226-247 | among frames taken off the channel without a forced one behind the first, a gap in the encoder's order is a dropped frame, and the last of them stands at most two behind one that lies behind the first |
| `VideoPath.ConfiguredExactlyOnce` | crates/android-client/src/decode.rs:251-269 | host and client together: the decoder is configured at most once, before anything else is asked of it and with the host's own parameter sets; and while the session goes on it has been, with that config stored, exactly if a VideoConfig was read |
| `VideoPath.EncoderConfigReachesDecoder` | crates/android-client/src/decode.rs:251-269 | the same from the encoder on: when the first keyframe sent was built from a picture without embedded start codes and well-formed sets, these sets and no others configure the decoder |
| `VideoPath.PictureSizeReachesDecoder` | crates/protocol/src/nal.rs:174-185 | and the size parsed from the set the decoder is configured with is the one the standard defines for the fields the encoder wrote |
| `StatsTracker.StatsTracker.OnArrive` | crates/android-client/src/session.rs:68-73 | a new record goes to the end, and at capacity the oldest goes |
| `StatsTracker.StatsTracker.OnDecode` | crates/android-client/src/session.rs:76-80 | the first record of the frame gets the decode time, nothing else changes |
| `StatsTracker.StatsTracker.OnPresent` | crates/android-client/src/session.rs:83-94 | the first record of the frame goes, and a report is made exactly when it has a decode time |
| `StatsTracker.PositionIsFirst` | crates/android-client/src/session.rs:76-94 | the record a decode or a presentation finds is the first of its frame |
| `StatsTracker.ArrivalsAddUp` | crates/android-client/src/session.rs:50-57 | after any calls the list is within its capacity, and every arrival is still listed, reported, evicted or was presented undecoded |
| `StatsTracker.ReportsAreWitnessed` | crates/android-client/src/session.rs:50-57 | after any calls every report joins an arrival, a later decode and a still later presentation of one and the same frame |
| `StatsTracker.CompleteFrameIsReported` | crates/android-client/src/session.rs:50-94 | a frame that arrives, is decoded and is presented is reported with just these times, whatever calls about other frames come in between, as long as fewer frames than the capacity arrive meanwhile |
| `Framing.FrameRoundTrip` | crates/protocol/src/framing.rs:34-56 | a written frame is parsed back whatever follows it |
| `Framing.FrameLayout` | crates/protocol/src/framing.rs:34-56 | a frame is its type byte, the payload length in four bytes, highest first, and the payload |
| `Framing.ParseFails` | crates/protocol/src/framing.rs:58-92 | what is not a frame is over the limit exactly if its five header bytes say so, and truncated otherwise |
| `Framing.PayloadsAreTheRest` | crates/protocol/src/framing.rs:34-56 | a stream of frames is as long as its payloads and five bytes a frame |
| `Framing.ParsedIsWritten` | crates/protocol/src/framing.rs:58-92 | whatever parses as a frame stands there byte for byte as it would be written |
| `Framing.FramesAndLeftover` | crates/protocol/src/framing.rs:58-92 | every byte stream is its complete in-limit frames and a rest that holds no further one |
| `Framing.SerializedComeBack` | crates/protocol/src/framing.rs:34-92 | frames written one after the other are read back in order, and what follows them is left |
| `Framing.FramesAreLongest` | crates/protocol/src/framing.rs:58-92 | no longer list of in-limit frames begins the stream |
| `Transport.ChunkedReader.Refill` | crates/android-client/src/transport.rs:90-99 | one large read keeps every byte still to be served in order, zeros left by an interruption included |
| `Transport.ChunkedReader.Read` | crates/android-client/src/transport.rs:78-105 | over a descriptor that drops what overflows a read, the bytes returned are the next ones to be served, none lost, repeated or reordered; nothing is returned only for an empty request or at the end |
| `Transport.ChunkedReader.ReadExact` | crates/android-client/src/transport.rs:78-105 | exactly the next bytes to be served, or the end of the stream, through any interruptions |
| `Transport.ReadPayload` | crates/protocol/src/framing.rs:73-91 | the chunked loop returns exactly the payload, or reports the truncation |
| `Transport.ReadFrame` | crates/protocol/src/framing.rs:58-92 | the frame at the front of the stream, its truncation, or a length over the limit, and the reader stands behind the frame |
| `Transport.WriteFrame` | crates/protocol/src/framing.rs:34-56 | a payload over the limit is refused without a byte written; any other frame goes out whole, or up to the byte at which the output fails |
| `Transport.EchoLoop` | crates/android-client/src/transport.rs:10-56 | of the bytes that are served, through any interruptions, the output is byte for byte the longest beginning of complete in-limit frames, cut where the output fails; the total is their payload, and only a frame over the limit and a failing output are errors |
| `Transport.WrittenFramesComeBack` | crates/android-client/src/transport.rs:66-77 | frames written by the peer and cut into transfers in any way are read as exactly these frames, when every interruption is harmless |
| `Transport.CalmFramesComeBack` | crates/android-client/src/transport.rs:66-77 | so they are when no read is interrupted |
| `Transport.InterruptedReadServesZeros` | crates/android-client/src/transport.rs:90-93 | a concrete interrupted read, behind which four zeros are served before the only byte sent |
| `Transport.ServedIsDeliveredIff` | crates/android-client/src/transport.rs:90-93 | what is served is what the peer sent if and only if every interruption finds a full chunk in the buffer; otherwise zeros nobody sent come in between |
| `EchoProtocol.EchoNeverDeadlocks` | crates/macos-host/src/transport.rs:54-71 | for any FIFO capacities of at least one byte and any messages: no interleaving is stuck before both sides are through, none is longer than the work there is, and one that cannot go on is through |
| `EchoProtocol.EchoReturnsWhatWasSent` | crates/macos-host/src/transport.rs:72-96 | at every point the host has got back exactly the frames of the rounds it finished, and at the end all of them |
| `EchoProtocol.FirstMismatch` | crates/macos-host/src/transport.rs:38-45 | None exactly for equal slices, otherwise the first place where they differ or one of them ends |
| `SurfaceHandOff.NoChangeStranded` | crates/android-client/src/rendezvous.rs:151-174 | at every point of every interleaving an undelivered change has the flag up, its raising imminent, or a take under way |
| `SurfaceHandOff.ReportsAreNewest` | crates/android-client/src/rendezvous.rs:180-196 | the session is told changes in order, each at most once, and an empty mailbox means it was told the newest |
| `SurfaceHandOff.TakeReportsNewest` | crates/android-client/src/rendezvous.rs:183-196 | a take reports the newest change if it was not reported yet, and leaves the mailbox empty |
| `SurfaceHandOff.PollDelivers` | crates/android-client/src/mediacodec.rs:445-477 | with the UI thread at rest, one poll delivers an undelivered change |
| `SurfaceHandOff.SlotHoldsCurrent` | crates/android-client/src/lib.rs:441-452 | whenever the lock on the current window is free, the slot is empty or holds just that window |
| `SurfaceHandOff.SessionBindsCurrent` | crates/android-client/src/lib.rs:228-237 | a session that takes a window while no event is being handled binds the current one |
| `SurfaceHandOff.RestingSessionShowsCurrent` | crates/android-client/src/lib.rs:441-452 | in every run in which a window comes only when there is none (or the same): with no event being handled and the mailbox empty, the polling session shows the current window, whatever sessions came and went before |
| `SurfaceHandOff.ShownIffFresh` | crates/android-client/src/lib.rs:217-237 | from any reachable state a window that comes is sure to be what a session shows in the end if and only if there was no other current window when it came; otherwise a new session may be seeded with the old one after the change was taken |
| `SurfaceHandOff.LocksNeverDeadlock` | crates/android-client/src/lib.rs:217-227 | a thread waiting for a lock waits for one the other thread can go on with |
| `PipelineLatency.HostedRefines` | crates/macos-host/src/latency.rs:142-209 | recording a frame whose key is no leftover behind the eviction does what a plain queue of unmatched frames would do, evicting exactly the oldest |
| `PipelineLatency.DistinctKeysRefine` | crates/macos-host/src/latency.rs:142-209 | for every history whose recorded frames have distinct timestamps: the map and its queue hold each key once, at most capacity frames wait, and they are those of a plain queue of unmatched frames fed with the same events, oldest first |
| `PipelineLatency.RunRefinesIff` | crates/macos-host/src/latency.rs:142-209 | over any history the map with its queue agrees with that plain queue all along if and only if no recorded frame meets a leftover of its own key |
| `PipelineLatency.HostedRefinesIff` | crates/macos-host/src/latency.rs:142-209 | it does so if and only if the key is waiting or did not survive the eviction as a leftover |
| `PipelineLatency.LeftoverKeyEvictsYounger` | crates/macos-host/src/latency.rs:225-226 | a concrete run in which a leftover key makes the younger frame go |
| `PipelineLatency.MatchedRefines` | crates/macos-host/src/latency.rs:211-226 | matching takes the frame out of that queue wherever it waits |
| `PipelineLatency.PipelineLatency.constructor` | crates/macos-host/src/latency.rs:160-168 | starts empty, with a capacity of at least one |
| `PipelineLatency.PipelineLatency.RecordHost` | crates/macos-host/src/latency.rs:172-205 | the eviction loop and the insert leave exactly the specified map and queue and no other change |
| `PipelineLatency.PipelineLatency.RecordStats` | crates/macos-host/src/latency.rs:211-271 | a matched report moves every stage and the total, an unmatched one only its counter |
| `PipelineLatency.PipelineLatency.RecordDropped` | crates/macos-host/src/latency.rs:275-277 | adds to the count of dropped frames and nothing else |
| `PipelineLatency.FusedTotals` | crates/macos-host/src/latency.rs:228-266 | for one frame the total is at most the five stages, and their sum when no interval was negative |
| `PipelineLatency.FusedOnHostClock` | crates/macos-host/src/latency.rs:228-266 | when the phone's times are host times ahead by the offset and the frame went through its stages in order, each stage records its own interval on the host's clock, the total records capture to presentation, and nothing is an anomaly |
| `PipelineLatency.FusedOutOfOrder` | crates/macos-host/src/latency.rs:228-271 | at any times: an interval that runs backwards is recorded as zero, and the frame counts as one anomaly exactly if some interval does |
| `PipelineLatency.FrameIsFused` | crates/macos-host/src/latency.rs:142-271 | with distinct timestamps, a frame that the phone reports before as many younger ones as the capacity were recorded is fused with just the stamps recorded for it |
| `PipelineLatency.DroppedAddUp` | crates/macos-host/src/latency.rs:275-277 | the dropped count is the sum of all drops reported |
| `PipelineLatency.ReportAddsUp` | crates/macos-host/src/latency.rs:142-157 | after any events: at most capacity frames wait, those fused and those waiting are no more than were recorded, fused and unmatched reports add up to the reports recorded, and the glass-to-glass total is at most the stage totals, equal without anomalies |
| `LatencyStats.AfterHistory` | crates/macos-host/src/encode.rs:48-57 | after any history the count and sum are exact and the window is exactly the last 16384 samples |
| `LatencyStats.ExtremesOfHistory` | crates/macos-host/src/encode.rs:59-72 | minimum and maximum are those of the whole history |
| `LatencyStats.LatencyStats.Record` | crates/macos-host/src/encode.rs:89-100 | recording updates aggregates and ring as specified |
| `LatencyStats.LatencyStats.Percentile` | crates/macos-host/src/encode.rs:127-152 | the answer is a sample of the window with at least rank samples at most as large and fewer than rank below it, for the clamped nearest rank |
| `LatencyStats.PercentileMeaning` | crates/macos-host/src/encode.rs:127-152 | without the rank: a sample is the answer exactly if those at most as large reach p percent of the window, and the smaller ones stay below that share or there are none |
| `LatencyStats.NearestRankMonotone` | crates/macos-host/src/encode.rs:127-152 | a rank determines its value, and higher ranks have no smaller ones |
| `LatencyStats.PercentileMonotone` | crates/macos-host/src/encode.rs:127-152 | percentiles of one window never shrink as p grows |
| `Clock.ErrorBounded` | crates/protocol/src/clock.rs:21-28 | for any true offset, delays and hold time for which the cast does not wrap, the round trip is the sum of the delays and twice the error is at most that, rounded up to an even number |
| `Clock.AccurateIff` | crates/protocol/src/clock.rs:21-41 | for all unsigned 64-bit timestamps the estimate obeys that bound if and only if the halved sum fits the 64 bits it is cast to |
| `Clock.SmallTimesFit` | crates/protocol/src/clock.rs:38-41 | timestamps below 2^63 always fit |
| `Clock.WithinHalfIff` | crates/protocol/src/clock.rs:25-27 | for any true offset, delays and hold time, the documented bound of half the round trip fails exactly where the sum to be halved is odd and one way took no time, the one it is rounded toward |
| `Clock.SurelyWithinHalfIff` | crates/protocol/src/clock.rs:25-27 | from the four timestamps alone: that bound holds for every offset and delays that may lie behind them if and only if the round trip is even |
| `Clock.HalfRoundTripExceeded` | crates/protocol/src/clock.rs:25-27 | a concrete exchange whose error exceeds half the round trip |
| `Clock.WrapIff` | crates/protocol/src/clock.rs:38-41 | the 64-bit cast is exact if and only if the halved sum fits |
| `Clock.FarClockWraps` | crates/protocol/src/clock.rs:38-41 | a concrete exchange on which the cast turns a clock far ahead into one far behind |
| `Clock.EstimateBestOf` | crates/protocol/src/clock.rs:46-56 | the first sample of least round trip, and None exactly for no samples |
| `Clock.BestHasTightestBound` | crates/protocol/src/clock.rs:46-56 | its error obeys the bound of every other sample |
| `Touch.AlongAxis` | crates/macos-host/src/touch.rs:65-85 | every finite coordinate lands on the display, and the ends map to the ends without a flip |
| `Touch.MapsOntoDisplay` | crates/macos-host/src/touch.rs:65-85 | a place in the unit square goes to the same place of the display, across by its width and down by its height |
| `Touch.PointerStateMachine.Step` | crates/macos-host/src/touch.rs:134-185 | the match over state and phase reacts as specified; foreign pointers and refused coordinates change nothing |
| `Touch.ActionsAreGestures` | crates/macos-host/src/touch.rs:119-133 | for every event sequence the actions are presses, drags and releases in gestures one after the other, the last perhaps unfinished |
| `Touch.ActionsAreHeard` | crates/macos-host/src/touch.rs:119-185 | for every event sequence: the machine acts on a Down between gestures and, during one, on the Moves and Ups of the finger that began it, with finite coordinates, and on nothing else; each action is of the event's kind and at its place, in order |
| `Touch.MoveCoalescer.OnEvent` | crates/android-client/src/coalesce.rs:50-61 | moves are buffered; a press or release goes out at once behind the buffered move |
| `Touch.MoveCoalescer.Flush` | crates/android-client/src/coalesce.rs:65-67 | the buffered move goes out and the buffer is empty |
| `Touch.SentAreThoseThatGo` | crates/android-client/src/coalesce.rs:7-26 | for any touches and ticks: sent are all presses and releases, and the moves behind which something other than a move comes next, each once and in the order of sampling |
| `Touch.CoalescingKeepsTransitions` | crates/android-client/src/coalesce.rs:7-26 | for any touches, fingers and ticks the presses and releases are those without coalescing, in order and place |
| `Touch.LastDragsSurviveIff` | crates/android-client/src/coalesce.rs:7-26 | for any touches, fingers and ticks: every release finds the pointer last dragged to the same place as without coalescing if and only if none comes while a drag is hidden, which it is from the refused move that replaced it up to the next accepted move, press or release |
| `Touch.MoveAheadIff` | crates/android-client/src/coalesce.rs:7-26 | for one move: buffering it keeps the host behind by just the buffered move if and only if the host accepts it, or no buffered move is lost by it, or that one leads where the pointer was already |
| `Touch.OneFingerKeepsLastDrag` | crates/android-client/src/coalesce.rs:7-26 | with one finger and finite coordinates every release finds it there, whatever the ticks |
| `Touch.SecondFingerHidesLastDrag` | crates/android-client/src/coalesce.rs:20-24 | a concrete two-finger sequence that loses the last drag |
| `Touch.BadCoordinateHidesLastDrag` | crates/android-client/src/coalesce.rs:20-24 | a concrete sequence of one finger, with a coordinate that is not finite, that loses it |
| `Messages.FrameCodecRoundTrip` | crates/protocol/src/messages.rs:310-462 | every frame with a 64-bit time is decoded to itself, given that the structured serializer undoes itself |
| `Messages.VideoReencodeIff` | crates/protocol/src/messages.rs:405-425 | decoding and encoding a video payload gives it back if and only if its keyframe byte is 0 or 1 |
| `Messages.NegotiateMeaning` | crates/protocol/src/messages.rs:512-557 | agreement is reached if and only if versions match, a codec is common and the size fits; the codec is the first the host prefers, the rate the smaller |
| `Messages.RefusalMeaning` | crates/protocol/src/messages.rs:512-557 | which of the refusals is given when |
| `SendSession.PerformHandshake` | crates/macos-host/src/session.rs:127-182 | the offer goes out and is flushed before the reply is read, and acceptance means the negotiation of the two succeeded |
| `SendSession.AnswerHandshake` | crates/android-client/src/session.rs:271-305 | the client answers an offer it can agree to, flushed before it reads on |
| `SendSession.HandshakeAgrees` | crates/android-client/src/session.rs:10-18 | over one link, each end reading what the other flushed: the host accepts only if the client did and with the same configuration, and with a working transport it accepts exactly when the two can agree |
| `SendSession.RunSendSession` | crates/macos-host/src/session.rs:293-334 | on success nothing is left unflushed, the wire carries the offer and then exactly the frames with their parameter sets, and the byte count is what was written after the handshake |
| `SendSession.RunStreamSessionInner` | crates/macos-host/src/session.rs:363-409 | the same for the live session, heartbeats included |
| `SendSession.LiveVideos` | crates/macos-host/src/session.rs:336-349 | the live session sheds nothing |
| `SendSession.LiveBeats` | crates/macos-host/src/session.rs:363-409 | the other frames are the heartbeats, one for each idle receive |
| `Wires.Wire.Read` | crates/macos-host/src/session.rs:151-158 | a read is allowed only when everything written was flushed, and takes the first frame waiting |
| `Wires.CountingWrite.Write` | crates/macos-host/src/session.rs:247-272 | the total stays the length of what went through since the start |

## Left out

- Avcc.ForEachAvccNal: the callback is a pure function of the unit, and what it would do with the units is a list; its captured state is not modelled.
- EncoderPacing.RecoversAfterDrop: holds for runs in which no forced frame is refused, because a refusal uses the request up; RecoveryIffArmed says from which states that is sure.
- EndToEnd.FedFramesChainInEncoder: holds for runs without a refused forced frame and without a failed callback, after either of which nothing bounds the gap; that the encoder makes an IDR picture of a forced frame is assumed.
- Transport.ChunkedReader.constructor: transfers over the chunk size are excluded, as the source demands of its peer.
- ByteLink.BytesConnect: that the two structured serializers undo each other is assumed, and a write that fails inside a frame ends the connection.
- HostStream.SendEncodedFrame: a transport that fails does so between whole frames, so that no part of a frame is left on the wire.
- HostStream.RunStreamSession: reports, timestamps and latency recording inside the loop are not part of this method; the statistics have modules of their own. A failing transport stops between whole frames.
- ClientSession.ReceiveLoop.OnVideo: which frames the decoder presents while it is fed or pumped, and all clock readings, are given with the turn.
- Messages.FrameCodecRoundTrip: the postcard format is an assumed pair of inverse functions; touches, whose decoding clamps, are not among the frames.
- LatencyStats.LatencyStats.Percentile: real numbers stand for floating point, so rounding, NaN and the library's sorting algorithm are not modelled.
- Touch.AlongAxis: coordinates are reals or not finite; rounding is not modelled.
- PipelineLatency.PipelineLatency.RecordStats: differences and sums are unbounded, so the wrap of 64-bit totals is not modelled.
- SurfaceHandOff.ShownIffFresh: what a session shows is the window it was given last, or none after it was told of a loss; a decoder that is not configured yet, which keeps its window on a loss, is not told apart.
- SurfaceHandOff.SlotHoldsCurrent: reference counts of windows, lock poisoning and the condition variable and deadline of the blocking take are not modelled; the take succeeds, waits or gives up.
- Weak-memory effects of relaxed atomics: all steps are sequentially consistent.
- The drain of the channel on reconnect is a series of receive steps of `EncoderPacing`, not a loop of its own.
- A disconnected channel in the output handler: the receiver lives as long as the process.
- VideoToolbox, ScreenCaptureKit, nusb, AMediaCodec, CGEvent, JNI and the virtual display: an encoder is a queue that calls back in order, a decoder a list of calls with scripted answers.
- Clock synchronisation over the transport, report printing, CSV output, throughput figures, configuration, the daemon and the diagnostic binaries: input and output, or single branches.
