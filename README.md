# H.264 receive path of the WebRTC media player, in Dafny

This project models the control logic of the Android app's H.264 receive path, together with the small pure utilities that path relies on.

**Decoder tasks.** `start_decoder` runs three loops:
- the bootstrap, which turns the first units of the track into a running codec;
- the feeder, which queues access units behind a reference-frame gate and asks for a Picture Loss Indication (PLI) when the stream breaks;
- the render pump, which releases decoded frames while a surface exists.

**Pieces they use.**
- the rate-limited PLI sender (RFC 4585, section 6.3.1);
- the H.264 codec-configuration accumulator;
- two Annex B start-code scanners with their SPS/PPS extraction (ITU-T H.264, Annex B and section 7.3.1);
- the MIME tables;
- the media status classification;
- the binary gcd and the aspect-ratio reduction;
- the decoder-capability gathering, in its current and older versions (both versions carry the same nine-entry profile table, so one function, `ProfileFromAndroidId`, serves both).

**Prototype.** The native activity's main loop, from the prototype.

**How the model is built.**
- Code that loops and updates state is written as classes and methods. Each method's postcondition ties the new state to a pure specification function: `FeederDecide`/`Feed`, `Pump`, `ReadPayloadSpec`, `BootStepSpec`/`BootRun`, `StartCodes`, `FromSliceSpec`, `CreateVideoFormat`, `Gather`, `WaitSpec` and `MainRun`.
- The properties the source promises are proved as lemmas about those functions.
- Anything the app gets from outside is a parameter:
  - the hardware codec;
  - JNI;
  - the reorder buffer and the depacketizer;
  - `nalu_chunks` and `get_resolution`;
  - the clock;
  - RTCP writes.
- The hardware codec (`MediaEngine`) is a class whose methods take the status the NDK would return.

## Model

| member | source | states |
|---|---|---|
| MediaStatusCodes.TryFromStatus | app/src/main/rust/src/media/status.rs:82-118 | `Err` exactly for `AMEDIA_OK`; a listed code gives the variant with that discriminant; any other non-zero code gives `AMEDIA_ERROR_UNKNOWN` |
| MediaStatusCodes.Variant | app/src/main/rust/src/media/status.rs:50-79 | the variant chosen for a listed code has that code as its discriminant |
| MediaStatusCodes.Success | app/src/main/rust/src/media/status.rs:28-34 | `Ok(())` iff the status is `AMEDIA_OK`; otherwise a `Sys` error carrying the status's variant |
| MediaStatusCodes.CodeRoundTrip | app/src/main/rust/src/media/status.rs:50-118 | every variant's discriminant is a listed non-zero code, and `try_from` maps it back to that variant |
| MediaStatusCodes.ErrorBaseIsUnknown | app/src/main/rust/src/media/status.rs:43-55 | `AMEDIA_ERROR_BASE` is classified as `AMEDIA_ERROR_UNKNOWN` by `try_from` and by `success` |
| MediaStatusCodes.CodeInjective | app/src/main/rust/src/media/status.rs:50-79 | two variants with the same discriminant are the same variant |
| Mime.TrimEndNul | app/src/main/rust/src/media/mime.rs:35-38 | the result is a prefix of the input, does not end in NUL, and only NULs were removed |
| Mime.ToAndroidStr | app/src/main/rust/src/media/mime.rs:16-38 | the table entry without its one trailing NUL; it contains no NUL |
| Mime.NulTerminatedShape | app/src/main/rust/src/media/mime.rs:16-26 | every table entry ends in exactly one NUL |
| Mime.TrimOneNul | app/src/main/rust/src/media/mime.rs:35-38 | trimming a string that has a single trailing NUL removes exactly that NUL |
| Mime.Lower | app/src/main/rust/src/media/mime.rs:57-64 | ASCII lowering keeps the length and lowers each character |
| Mime.FromStr | app/src/main/rust/src/media/mime.rs:57-74 | `Ok(m)` exactly when the string spells one of m's two names, ignoring ASCII case; `Err` when it spells none of the 14 |
| Mime.LoweredSpellingsAgree | app/src/main/rust/src/media/mime.rs:16-51 | the lowered Android and SDP names are the spellings `from_str` compares against |
| Mime.VideoAndroidNames | app/src/main/rust/src/media/mime.rs:20-38 | the Android names of AV1, H.264 and H.265 are `video/av01`, `video/avc` and `video/hevc` |
| Mime.SpellsClassified | app/src/main/rust/src/media/mime.rs:57-74 | a string spelling m is classified as m after lowering |
| Mime.SpellingsDistinct | app/src/main/rust/src/media/mime.rs:57-74 | no string spells two different MIME types |
| Mime.AndroidStrRoundTrip | app/src/main/rust/src/media/mime.rs:35-74 | `from_str(to_android_str(m)) == Ok(m)` for every m |
| Mime.SdpStrRoundTrip | app/src/main/rust/src/media/mime.rs:41-74 | `from_str(to_sdp_str(m)) == Ok(m)` for every m |
| Mime.FromStrIgnoresAsciiCase | app/src/main/rust/src/media/mime.rs:57-74 | strings equal up to ASCII case parse alike |
| AnnexB.ZeroRunEnd | app/src/main/rust/src/media/format/video.rs:30-40 | the end of the run of zero bytes starting at j: zeros up to it and a non-zero byte (or the end) at it |
| AnnexB.StartCodesBelowExact | app/src/main/rust/src/media/format/video.rs:26-43 | below any bound, the boundaries are exactly the start of each zero run followed by 1 that the rule accepts, strictly increasing |
| AnnexB.StartCodesExact | app/src/main/rust/src/media/format/video.rs:26-43 | the boundary list holds exactly the start codes the rule accepts, strictly increasing |
| AnnexB.SkipNonStartCodes | app/src/main/rust/src/media/format/video.rs:30-40 | positions that are not start codes add no boundary |
| AnnexB.ZeroRunEndsAt | app/src/main/rust/src/media/format/video.rs:30-40 | the run ends at the first non-zero byte |
| AnnexB.RunEndedStep | app/src/main/rust/src/media/format/video.rs:31-39 | a run of zeros ended by byte i adds `i - zeroes` exactly when byte i is 1 and the rule accepts the run length |
| AnnexB.TrailingZerosNoStartCode | app/src/main/rust/src/media/format/video.rs:29-42 | zeros at the end of the data are never followed by 1, so they add no boundary |
| VideoFormat.CStr | app/src/main/rust/src/media/format/mod.rs:21-23 | the C string is the prefix up to the first NUL |
| VideoFormat.VideoMimeType | app/src/main/rust/src/media/format/video.rs:15-23 | `H264` is the Android name of H.264 and `Hevc` the one of H.265 |
| VideoFormat.VideoMimeTypeParses | app/src/main/rust/src/media/format/video.rs:15-23 | each video type's name parses back to its MIME type |
| VideoFormat.NalBoundaries | app/src/main/rust/src/media/format/video.rs:26-43 | the loop returns exactly the start codes with at least two zeros |
| VideoFormat.Segments | app/src/main/rust/src/media/format/video.rs:70-75 | the segments are the slices between consecutive boundaries |
| VideoFormat.FromSlice | app/src/main/rust/src/media/format/video.rs:62-89 | the loop returns what the window scan over boundaries plus `data.len()` gives |
| VideoFormat.WindowsOrdered | app/src/main/rust/src/media/format/video.rs:70-71 | boundaries plus the length are within the data and strictly increasing |
| VideoFormat.ScanWindowsSound | app/src/main/rust/src/media/format/video.rs:73-88 | a `Some` result is an SPS segment and a PPS segment of the data, and at least five bytes each |
| VideoFormat.FromSliceSound | app/src/main/rust/src/media/format/video.rs:62-89 | `from_slice` returns `Some` only with an SPS (type 7) and a PPS (type 8) among the segments |
| VideoFormat.NoStartCodeNoCsd | app/src/main/rust/src/media/format/video.rs:70-88 | data with no start code yields `None` |
| VideoFormat.ShortSegmentAborts | app/src/main/rust/src/media/format/video.rs:75-84 | a segment shorter than five bytes, reached while the SPS or the PPS has not been seen yet, makes the result `None` |
| VideoFormat.LastOfTypeCons | app/src/main/rust/src/media/format/video.rs:77-82 | the last segment of a type in `[x] + xs` is the last one in `xs`, or `x` when `xs` has none and `x` has the type |
| VideoFormat.LatestCons | app/src/main/rust/src/media/format/video.rs:77-82 | scanning `[x] + xs` from a held value is scanning `xs` from what `x` leaves: `x` replaces the held value when it has the type |
| VideoFormat.ScanWindowsIsScanSegments | app/src/main/rust/src/media/format/video.rs:73-86 | over ordered boundaries, the window loop gives what the same loop over the slices between them gives |
| VideoFormat.ScanSegmentsShortAborts | app/src/main/rust/src/media/format/video.rs:75-84 | over the slices: one shorter than five bytes, reached while the SPS or the PPS is still missing, gives `None` |
| VideoFormat.ScanSegmentsPicksLatest | app/src/main/rust/src/media/format/video.rs:73-86 | over the slices: the first point where both are known gives the latest SPS and PPS up to it |
| VideoFormat.ScanWindowsPicksLatest | app/src/main/rust/src/media/format/video.rs:73-86 | when the n-th segment is the first after which both are known, and the segments up to it are long enough, the result is the latest SPS and the latest PPS up to it |
| VideoFormat.FromSlicePicksLatest | app/src/main/rust/src/media/format/video.rs:62-89 | `from_slice` returns the last SPS and the last PPS among the segments up to the first point where both have been seen; a repeated one replaces the earlier |
| VideoFormat.ScanWindowsComplete | app/src/main/rust/src/media/format/video.rs:73-88 | when every segment has five bytes and an SPS and a PPS occur, the result is `Some` |
| VideoFormat.CStrOfTerminated | app/src/main/rust/src/media/format/mod.rs:21-23 | a NUL-terminated name reads back as the name |
| VideoFormat.MimeConstantNames | app/src/main/rust/src/media/format/mod.rs:21-23 | the three constants read "video/av01", "video/hevc" and "video/avc" |
| VideoFormat.StrMimeTypeAsWritten | app/src/main/rust/src/media/format/mod.rs:124-133 | the result is one of the H.264 and H.265 names, and it is the H.264 one for every input except "video/hevc" |
| VideoFormat.Av1MappedToH264 | app/src/main/rust/src/media/format/mod.rs:127 | "video/av01" is given the H.264 name, which parses as a different type than the input |
| VideoFormat.StrMimeType | app/src/main/rust/src/media/format/mod.rs:124-133 | corrected mapping: each accepted name maps to its own constant |
| VideoFormat.StrMimeTypePreservesType | app/src/main/rust/src/media/format/mod.rs:124-133 | the corrected mapping keeps the MIME type the name parses to |
| PrototypeFormat.NalBoundariesExactThree | src/media_format.rs:145-162 | the loop returns exactly the positions where three zeros, and no more, precede a 1 |
| PrototypeFormat.NalKind | src/media_format.rs:175-182 | SPS iff byte 4 has type 7, PPS iff it has type 8, none for other types or data shorter than five bytes |
| PrototypeFormat.CsdKey | src/media_format.rs:102-106 | SPS is stored under "csd-0", PPS under "csd-1" |
| PrototypeFormat.CsdKeysDistinct | src/media_format.rs:102-106 | the two keys differ |
| PrototypeFormat.MimeCstr | src/media_format.rs:137-142 | H.264 maps to "video/avc\0", H.265 to "video/hevc\0" |
| PrototypeFormat.MimeCstrAgreesWithCurrent | src/media_format.rs:137-142 | the prototype names agree with the current `VideoType::mime_type` |
| PrototypeFormat.SegmentStartsWithStartCode | src/media_format.rs:145-162 | a segment from a boundary starts with `00 00 00 01` |
| PrototypeFormat.CreateVideoFormat | src/media_format.rs:21-68 | an error is the null-format message exactly when no format was created, and otherwise the invalid-data message; success stores the type's MIME name and exactly the keys `csd-0` and `csd-1` |
| PrototypeFormat.CreateVideoFormatSound | src/media_format.rs:21-68 | success requires two boundaries whose two segments are an SPS and a PPS in either order, each stored under its key |
| PrototypeFormat.CreateVideoFormatComplete | src/media_format.rs:38-60 | two boundaries with one SPS and one PPS segment are accepted |
| PrototypeFormat.CreateVideoFormatRejects | src/media_format.rs:21-60 | a failed format creation, or a boundary count other than two, is an error |
| PrototypeFormat.ThreeByteStartCodeIgnored | src/media_format.rs:145-162 | `00 00 01` is a boundary for the current scanner but not for the prototype's |
| PrototypeFormat.FourZerosIgnored | src/media_format.rs:145-162 | four zeros before 1 are a boundary for the current scanner but not for the prototype's |
| BinaryGcd.Pow2 | app/src/main/rust/src/util.rs:13-16 | powers of two are positive |
| BinaryGcd.Gcd | app/src/main/rust/src/util.rs:3-29 | `gcd(0, v) == v`, `gcd(u, 0) == u`; otherwise the greatest common divisor, within i32 |
| BinaryGcd.ZeroGcd | app/src/main/rust/src/util.rs:7-11 | the gcd of 0 and n > 0 is n |
| BinaryGcd.GcdUnique | app/src/main/rust/src/util.rs:1-29 | the greatest common divisor is unique |
| BinaryGcd.GcdSymmetric | app/src/main/rust/src/util.rs:19-22 | a gcd of (a, b) is a gcd of (b, a) |
| BinaryGcd.GcdArgumentOrder | app/src/main/rust/src/util.rs:19-22 | `gcd(u, v) == gcd(v, u)` |
| BinaryGcd.GcdBounded | app/src/main/rust/src/util.rs:1-29 | for positive inputs the gcd is positive and at most each input |
| BinaryGcd.StripTrailingZeros | app/src/main/rust/src/util.rs:13-16 | shifting out the trailing zeros leaves an odd value with `x == 2^tz * odd` |
| BinaryGcd.SubStep | app/src/main/rust/src/util.rs:23 | `v -= u` keeps the common divisors |
| BinaryGcd.StripKeepsOddDivisor | app/src/main/rust/src/util.rs:27 | shifting out factors of two keeps odd divisors |
| BinaryGcd.StripStep | app/src/main/rust/src/util.rs:27 | the shift at the loop's end keeps the common odd divisors and leaves v odd, positive and no larger |
| BinaryGcd.FinishStep | app/src/main/rust/src/util.rs:24-26 | when v reaches 0, `u << k` with `k = min(i, j)` is the gcd of the original inputs |
| BinaryGcd.GcdOfScaled | app/src/main/rust/src/util.rs:13-17 | the gcd of `2^i a` and `2^j b` for odd a, b is `2^min(i,j)` times the gcd of a and b |
| MediaPlayer.RatioToLowestTerms | app/src/main/rust/src/activities/media_player.rs:38-68 | `(0, h) -> (0, 1)`, `(w, 0) -> (1, 0)`; otherwise coprime, the same ratio and no larger |
| MediaPlayer.ReducedRatio | app/src/main/rust/src/activities/media_player.rs:67-68 | dividing by the gcd keeps the ratio and gives coprime, non-negative values no larger than before |
| MediaPlayer.ReducedKeepsRatio | app/src/main/rust/src/activities/media_player.rs:67-68 | `(g x) y == (g y) x`, and quotients are no larger |
| MediaPlayer.ReducedCoprime | app/src/main/rust/src/activities/media_player.rs:67-68 | the quotients by the gcd are coprime |
| MediaPlayer.CommonDivisorOfQuotients | app/src/main/rust/src/activities/media_player.rs:67-68 | a common divisor of the quotients is 1 |
| RtcpHelper.SendStep | app/src/main/rust/src/webrtc/decoder/rtcp_helper.rs:28-37 | sends only when `now - last > interval`; a success moves `last` to `now`; a failed write returns the error and keeps `last`; otherwise `Ok(())` and nothing changes, including when the clock went backwards |
| RtcpHelper.WritesSpaced | app/src/main/rust/src/webrtc/decoder/rtcp_helper.rs:28-37 | the successful writes of any call sequence are spaced by more than the interval, and `last_pli_time` is the last of them |
| RtcpHelper.SpacedPairwise | app/src/main/rust/src/webrtc/decoder/rtcp_helper.rs:28-37 | any two successful writes are more than one interval apart, and after the start |
| RtcpHelper.SpacedSnoc | app/src/main/rust/src/webrtc/decoder/rtcp_helper.rs:30-33 | a write after more than one interval keeps the spacing |
| RtcpHelper.SpacedCallsAllWrite | app/src/main/rust/src/webrtc/decoder/rtcp_helper.rs:30-33 | calls spaced by more than the interval, whose writes succeed, all write |
| RtcpHelper.FirstCallFromEpoch | app/src/main/rust/src/webrtc/decoder/rtcp_helper.rs:16-25 | from the epoch, the first call writes iff `now` is more than one interval after it and the write succeeds |
| RtcpHelper.RateLimitedPli.constructor | app/src/main/rust/src/webrtc/decoder/rtcp_helper.rs:16-26 | one PLI with sender SSRC 0 and the media SSRC; `last_pli_time` is the epoch |
| RtcpHelper.RateLimitedPli.Send | app/src/main/rust/src/webrtc/decoder/rtcp_helper.rs:28-37 | result and new `last_pli_time` as `SendStep`; the write log grows only on a sent PLI |
| H264Config.ChunkStepEffect | app/src/main/rust/src/webrtc/decoder/h264.rs:39-55 | an SPS whose resolution parses replaces SPS and resolution, one that does not is ignored, a PPS replaces the PPS, anything else is an error; consistency is kept and nothing is cleared |
| H264Config.ApplyChunksKeeps | app/src/main/rust/src/webrtc/decoder/h264.rs:39-56 | the NAL loop keeps the configuration consistent and clears no field |
| H264Config.ReadPayloadKeeps | app/src/main/rust/src/webrtc/decoder/h264.rs:35-57 | `read_payload` keeps consistency, clears nothing, and keeps `init_done` |
| H264Config.InitDoneMeansConfigured | app/src/main/rust/src/webrtc/decoder/h264.rs:23-25 | `init_done` iff SPS, PPS and resolution are all known; the configuration is then `00 00 00 01 ++ SPS ++ 00 00 00 01 ++ PPS`, `8 + |sps| + |pps|` bytes |
| H264Config.EmptyPayloadRejected | app/src/main/rust/src/webrtc/decoder/h264.rs:36-38 | an empty payload is an error and changes nothing |
| H264Config.ApplyChunksPanicsOnlyOnEmpty | app/src/main/rust/src/webrtc/decoder/h264.rs:39-40 | when every unit is non-empty, the NAL loop returns and never panics on `nalu[0]` |
| H264Config.ApplyChunksStopsAtFirstOther | app/src/main/rust/src/webrtc/decoder/h264.rs:39-55 | the first unit that is neither SPS nor PPS fails the call, and an empty unit panics on `nalu[0]`, each keeping the earlier units' updates; with none the call succeeds |
| H264Config.H264Decoder.constructor | app/src/main/rust/src/webrtc/decoder/h264.rs:12-18 | all four fields are `None` |
| H264Config.H264Decoder.BuildCodecConfig | app/src/main/rust/src/webrtc/decoder/h264.rs:60-73 | the four appends produce the configuration exactly when SPS, PPS and resolution are present |
| H264Config.H264Decoder.ReadPayload | app/src/main/rust/src/webrtc/decoder/h264.rs:35-57 | result and new fields as the `read_payload` specification: an empty payload is an error, an empty unit panics, the first unit that is neither SPS nor PPS is an error |
| MediaEngineModel.InitializeResult | app/src/main/rust/src/media/engine.rs:60-88 | `Ok` iff configure and start both succeed; a failed configure returns its own status |
| MediaEngineModel.ReleaseResult | app/src/main/rust/src/media/engine.rs:157-193 | try-again-later is `NoAvailableBuffer`; format or buffer changes are `Ok`; a buffer index gives the release status |
| MediaEngineModel.MediaEngine.CreateByName | app/src/main/rust/src/media/engine.rs:42-51 | a name with NUL is a `StringNulError`; a failed create is `MediaCodecCreationFailed`; otherwise a fresh codec of that name |
| MediaEngineModel.MediaEngine.Initialize | app/src/main/rust/src/media/engine.rs:60-88 | on success the format and surface are set; on failure nothing changes |
| MediaEngineModel.MediaEngine.SetOutputSurface | app/src/main/rust/src/media/engine.rs:90-93 | the surface changes exactly when the status is `AMEDIA_OK` |
| MediaEngineModel.MediaEngine.DequeueInputBuffer | app/src/main/rust/src/media/engine.rs:111-133 | -1 is `NoAvailableBuffer`, a missing buffer is `AllocationError`, otherwise the index |
| MediaEngineModel.MediaEngine.QueueInputBuffer | app/src/main/rust/src/media/engine.rs:135-155 | the data is queued and the status returned |
| MediaEngineModel.MediaEngine.SubmitCodecConfig | app/src/main/rust/src/media/engine.rs:95-109 | dequeue errors are returned before anything is submitted; otherwise the configuration is submitted and the status returned |
| MediaEngineModel.MediaEngine.ReleaseOutputBuffer | app/src/main/rust/src/media/engine.rs:157-193 | the render flag is recorded and the result is as `ReleaseResult` |
| Common.NalUnitTypeIsLowBits | app/src/main/rust/src/webrtc/decoder/mod.rs:38-141 | the NAL unit type is the low five bits of the header byte: below 32, the header minus it is a multiple of 32, and a header below 32 is its own type |
| DecoderFeeder.FeederDecideCases | app/src/main/rust/src/webrtc/decoder/mod.rs:134-191 | queue iff a unit finished with the flag set or an IDR; without the flag a non-IDR unit of at least five bytes drops and asks for a PLI, a shorter one panics; resetting errors reset; `NeedMoreInput`, `PacketTooShort` and other reorder errors do nothing |
| DecoderFeeder.FeedSnoc | app/src/main/rust/src/webrtc/decoder/mod.rs:133-194 | the summary of a longer event list extends the summary of the shorter one by one step |
| DecoderFeeder.FeedAppend | app/src/main/rust/src/webrtc/decoder/mod.rs:133-194 | feeding `xs + ys` is feeding xs, then ys from the flag xs leaves |
| DecoderFeeder.NoIdrNothingQueued | app/src/main/rust/src/webrtc/decoder/mod.rs:140-149 | without a reference frame and without an IDR, nothing is queued and the flag stays clear |
| DecoderFeeder.FirstQueuedIsIdr | app/src/main/rust/src/webrtc/decoder/mod.rs:140-154 | starting without a reference frame, the first unit queued is an IDR |
| DecoderFeeder.FirstQueuedAfterResetIsIdr | app/src/main/rust/src/webrtc/decoder/mod.rs:163-191 | after a resetting error, the queue continues from a clear flag, so the next unit queued is an IDR |
| DecoderFeeder.ReferenceQueuesEverything | app/src/main/rust/src/webrtc/decoder/mod.rs:140-154 | with the flag set and no reset, every finished unit is queued in order, whatever its type, and no PLI is asked |
| DecoderFeeder.Feeder.constructor | app/src/main/rust/src/webrtc/decoder/mod.rs:123-128 | a fresh PLI limiter from the epoch, a clear flag and the given input buffer |
| DecoderFeeder.Feeder.Start | app/src/main/rust/src/webrtc/decoder/mod.rs:123-128 | the first dequeue's errors end the feeder task; otherwise a feeder over that buffer |
| DecoderFeeder.Feeder.RequestPli | app/src/main/rust/src/webrtc/decoder/mod.rs:143-143 | sends through the limiter and changes nothing else |
| DecoderFeeder.Feeder.Step | app/src/main/rust/src/webrtc/decoder/mod.rs:134-191 | the flag follows `FeederDecide`; a queued unit is queued with its length and a failed queue is only logged; a failed dequeue or PLI write ends the feeder task, while a PLI that is sent, or held back by the rate limit, lets it continue |
| DecoderFeeder.Feeder.Run | app/src/main/rust/src/webrtc/decoder/mod.rs:133-194 | the loop's queue, PLI requests, flag and panic are those of `Feed` on the events processed; it stops early only on an error or a panic, and when every PLI write and dequeue succeeds only on a panic |
| DecoderRender.RenderOutcome | app/src/main/rust/src/webrtc/decoder/mod.rs:201-233 | breaks iff the peer left `Connected`, the activity was destroyed or the channel disconnected; fails iff a surface cannot be attached or bound; otherwise continues |
| DecoderRender.RenderAfter | app/src/main/rust/src/webrtc/decoder/mod.rs:211-223 | a bound surface sets `render`, `SurfaceDestroyed` clears it, anything else keeps it |
| DecoderRender.PumpSnoc | app/src/main/rust/src/webrtc/decoder/mod.rs:201-234 | the pump over a longer list is one more iteration after the shorter one |
| DecoderRender.NotRenderingWithoutWindow | app/src/main/rust/src/webrtc/decoder/mod.rs:220-232 | without a new surface, a pump that is not rendering releases every buffer unrendered |
| DecoderRender.RenderingWhileSurfaceStays | app/src/main/rust/src/webrtc/decoder/mod.rs:211-232 | while the surface stays, every buffer is released rendered |
| DecoderRender.SurfaceDestroyedStopsRendering | app/src/main/rust/src/webrtc/decoder/mod.rs:220-232 | after `SurfaceDestroyed`, buffers are released unrendered until a new surface |
| DecoderRender.SurfaceCreatedResumesRendering | app/src/main/rust/src/webrtc/decoder/mod.rs:211-232 | after a surface is bound, buffers are released rendered while it stays |
| DecoderRender.ReleaseFailureIgnored | app/src/main/rust/src/webrtc/decoder/mod.rs:228-232 | an empty poll continues whatever the release returns, and keeps `render` |
| DecoderRender.PumpResult | app/src/main/rust/src/webrtc/decoder/mod.rs:212-240 | a break returns `ApplicationClosed`; a failure returns its own error |
| DecoderRender.AttachFailureLeavesFeederRunning | app/src/main/rust/src/webrtc/decoder/mod.rs:211-236 | a failing thread attach returns an error without storing the exit flag |
| DecoderRender.ExitStoredOnEveryReturn | app/src/main/rust/src/webrtc/decoder/mod.rs:201-240 | corrected: the exit flag is stored exactly when the pump returns, and whenever the as-written version stores it |
| DecoderRender.RenderPump.constructor | app/src/main/rust/src/webrtc/decoder/mod.rs:199-199 | `render` starts true and the exit flag clear |
| DecoderRender.RenderPump.Step | app/src/main/rust/src/webrtc/decoder/mod.rs:202-233 | outcome and `render` as `RenderOutcome` and `RenderAfter`; only an empty poll releases a buffer, with the old `render`; the surface changes only when bound |
| DecoderRender.RenderPump.PumpTicks | app/src/main/rust/src/webrtc/decoder/mod.rs:201-234 | the loop's end, `render` and releases are those of `Pump` on the ticks processed |
| DecoderRender.RenderPump.RunAsWritten | app/src/main/rust/src/webrtc/decoder/mod.rs:199-240 | as written: the exit flag is stored only after a break |
| DecoderRender.RenderPump.Run | app/src/main/rust/src/webrtc/decoder/mod.rs:199-240 | corrected: the exit flag is stored on every return |
| DecoderBootstrap.StartDecoderSetup | app/src/main/rust/src/webrtc/decoder/mod.rs:81-92 | unknown MIME, then a missing decoder, then a taken receiver are the errors in that order; otherwise the parsed type and its decoder |
| DecoderBootstrap.SetupFindsRegisteredDecoder | app/src/main/rust/src/webrtc/decoder/mod.rs:81-92 | a name of a type in the map finds that type's decoder |
| DecoderBootstrap.BootFormat | app/src/main/rust/src/webrtc/decoder/mod.rs:278-295 | low latency iff API level >= 30; realtime priority; resolution and max resolution iff a resolution is known |
| DecoderBootstrap.BootFormatNamesTrackType | app/src/main/rust/src/webrtc/decoder/mod.rs:278-283 | the format's MIME name parses back to the track's type |
| DecoderBootstrap.BuildSucceedsWhenCallsDo | app/src/main/rust/src/webrtc/decoder/mod.rs:277-305 | building succeeds iff every call it makes succeeds |
| DecoderBootstrap.BootTrackAction | app/src/main/rust/src/webrtc/decoder/mod.rs:324-363 | a finished unit is read; a depacketizer error other than `NeedMoreInput` asks for a PLI and re-wraps; resetting reorder errors re-wrap and ask for a PLI; the rest do nothing |
| DecoderBootstrap.BootstrapRequestsPliWhereFeederResets | app/src/main/rust/src/webrtc/decoder/mod.rs:335-361 | the bootstrap asks for a PLI on exactly the events on which the feeder resets, and ignores the same ones |
| DecoderBootstrap.WindowAfter | app/src/main/rust/src/webrtc/decoder/mod.rs:312-321 | `SurfaceDestroyed` clears the window; a created window replaces it; anything else keeps it |
| DecoderBootstrap.PollOutcome | app/src/main/rust/src/webrtc/decoder/mod.rs:307-323 | a destroyed activity or a disconnected channel ends with `ApplicationClosed`; a surface that cannot be attached or created fails |
| DecoderBootstrap.Bootstrap.constructor | app/src/main/rust/src/webrtc/decoder/mod.rs:262-269 | empty decoder state, no window, fresh limiter from the epoch |
| DecoderBootstrap.Bootstrap.RequestPli | app/src/main/rust/src/webrtc/decoder/mod.rs:331-332 | sends through the limiter and changes nothing else |
| DecoderBootstrap.Bootstrap.Build | app/src/main/rust/src/webrtc/decoder/mod.rs:277-305 | fails iff one of its calls fails, with that call's error; on success a fresh codec with the decoder's name, the boot format, the window and the configuration submitted, and the media player told the resolution in lowest terms |
| DecoderBootstrap.Bootstrap.Step | app/src/main/rust/src/webrtc/decoder/mod.rs:271-364 | a lost peer ends with `ApplicationClosed`; with a window and `init_done` it builds and never continues; otherwise the poll acts as `PollOutcome`/`WindowAfter`, and an empty poll handles the track as `BootTrackAction`, asking for a PLI when `read_payload` fails and panicking exactly when it panics on an empty unit; decoder state is never cleared; outcome and new window, decoder state, PLI time, PLI count and wraps as `BootStepSpec` |
| DecoderBootstrap.Bootstrap.Consume | app/src/main/rust/src/webrtc/decoder/mod.rs:324-363 | the track event handled as `BootTrackAction`, with a PLI on a failed `read_payload` and a panic exactly when `read_payload` panics; outcome and new state as `ConsumeSpec` |
| DecoderBootstrap.Bootstrap.ReadPayloadReducible | app/src/main/rust/src/webrtc/decoder/mod.rs:287-295 | every resolution `read_payload` stores can be reduced to lowest terms |
| DecoderBootstrap.Bootstrap.ApplyChunksReducible | app/src/main/rust/src/webrtc/decoder/mod.rs:287-295 | the same for the NAL loop |
| DecoderBootstrap.BootRunStopsAtFirst | app/src/main/rust/src/webrtc/decoder/mod.rs:271-364 | once an iteration builds, fails or panics, later ticks change neither the outcome nor the state |
| DecoderBootstrap.BootRunKeepsDecoder | app/src/main/rust/src/webrtc/decoder/mod.rs:324-345 | across the loop the decoder's configuration stays consistent, no field is cleared and `init_done` is kept |
| DecoderBootstrap.BootRunBuildsOnlyWhenReady | app/src/main/rust/src/webrtc/decoder/mod.rs:271-277 | the loop builds only once a window exists and SPS, PPS and resolution are known |
| DecoderBootstrap.Bootstrap.Run | app/src/main/rust/src/webrtc/decoder/mod.rs:271-364 | the loop runs through every tick unless one builds, fails or panics; every tick before the last one processed went on; the outcome and the window, decoder state, PLI time, PLI count and wraps are those of `BootRun` on the ticks processed; a codec it returns was assembled from the last tick's answers; decoder state is never cleared |
| DecoderBuilder.AndroidId | app/src/main/rust/src/webrtc/decoder/builder.rs:100-110 | every profile's Android id is positive |
| DecoderBuilder.ProfileFromAndroidId | app/src/main/rust/src/webrtc/decoder/builder.rs:100-116 | `Some` exactly for the nine ids, each mapped to the profile whose id it is |
| DecoderBuilder.ProfileIdRoundTrip | app/src/main/rust/src/webrtc/decoder/builder.rs:100-116 | every profile is recognised from its own id |
| DecoderBuilder.ProfileFromAndroidIdInjective | app/src/main/rust/src/webrtc/decoder/builder.rs:100-116 | accepted ids map to distinct profiles |
| DecoderBuilder.Convert | app/src/main/rust/src/webrtc/decoder/builder.rs:50-55 | only the H.264 converter converts, and only recognised ids |
| DecoderBuilder.NoCodecsConvertNothing | app/src/main/rust/src/webrtc/decoder/builder.rs:50-51 | AV1 and H.265 contribute no codecs |
| DecoderBuilder.ConvertedOffersListed | app/src/main/rust/src/webrtc/decoder/builder.rs:83-87 | an H.264 profile is offered iff the decoder lists its id |
| DecoderBuilder.ConvertedCount | app/src/main/rust/src/webrtc/decoder/builder.rs:83-87 | at most one codec per id, and exactly one per id when all are recognised |
| DecoderBuilder.Lookup | app/src/main/rust/src/webrtc/decoder/builder.rs:60-82 | a MIME type is used iff both queries return `Ok(Some)`; then the found name and ids |
| DecoderBuilder.GatherMimeTypes | app/src/main/rust/src/webrtc/decoder/builder.rs:49-89 | a map entry exists iff both queries found something, with the name found; AV1 and H.265 still get entries; the codecs are the H.264 ones in list order |
| DecoderBuilder.AndroidDecoderBuilder.CodecKind | app/src/main/rust/src/webrtc/decoder/builder.rs:17-19 | always `Video` |
| DecoderBuilder.GatherCodecs | app/src/main/rust/src/webrtc/decoder/builder.rs:59-89 | the nested loops build what `Gather` specifies |
| DecoderBuilder.New | app/src/main/rust/src/webrtc/decoder/builder.rs:42-96 | only the attach fails `new`; otherwise the gathered codecs and map |
| LegacyDecoderBuilder.LegacyNewSpec | app/src/main/rust/src/webrtc/decoder.rs:31-58 | the attach error, then the first JNI error, abort `new` |
| LegacyDecoderBuilder.LegacyNew | app/src/main/rust/src/webrtc/decoder.rs:31-58 | the loop over "video/avc" returns what the specification says |
| LegacyDecoderBuilder.LegacyOffersListed | app/src/main/rust/src/webrtc/decoder.rs:46-51 | a profile is offered iff the decoder lists its id |
| LegacyDecoderBuilder.LegacyAgreesWithBuilder | app/src/main/rust/src/webrtc/decoder.rs:31-58 | given the same answers, the older builder offers the same H.264 profiles, in the same order, as the current one |
| NativeLoop.WaitSpec | src/lib.rs:64-85 | consumes no more events than exist; `Ready` carries non-null handles |
| NativeLoop.LastQueueSnoc | src/lib.rs:70-72 | the latest creation event overwrites the earlier handle |
| NativeLoop.WaitReadyIsLast | src/lib.rs:64-85 | `Ready` carries the last queue and window created, non-null, and no closing event came before it |
| NativeLoop.WaitClosedCause | src/lib.rs:73-81 | `Closed` comes from `Destroy`, a receive error or a null pointer |
| NativeLoop.WaitForInputQueueAndNativeWindow | src/lib.rs:64-85 | the loop returns what `WaitSpec` gives |
| NativeLoop.MainStepKeepsPacing | src/lib.rs:107-159 | pacing is kept: packet i is decoded at time `16666 * i`, end-of-stream iff it is the last, none past the end; `packet_index` advances by one only on a taken decode; only a differing non-null window rebinds; the loop exits iff `Destroy` or `NativeWindowDestroyed`; `Disconnected` changes nothing |
| NativeLoop.MainRunKeepsPacing | src/lib.rs:107-159 | pacing holds across any number of iterations |
| NativeLoop.MainRunSnoc | src/lib.rs:107-159 | the loop over a longer list is one more iteration after the shorter one |
| NativeLoop.MainLoop.constructor | src/lib.rs:104-105 | time and packet index start at 0 |
| NativeLoop.MainLoop.Step | src/lib.rs:107-159 | one iteration as `MainStep` |
| NativeLoop.MainLoop.Rebind | src/lib.rs:119-130 | the same window changes nothing; a null one panics; another one rebinds the decoder surface |
| NativeLoop.MainLoop.Run | src/lib.rs:107-159 | the loop's state and end are `MainRun` on the ticks processed, and pacing holds |

## Left out

- The external crate's internals are left out: the reorder buffer, `H264Depacketizer`, `nalu_chunks`, `H264Codec::get_resolution` and `WebRtcPeer::write_rtcp`. They become events, the list of units, a function parameter and a write-status flag.
- JNI, the NDK and Android are not modelled. Every answer they give is a parameter of the step that asks for it. `MediaEngine` records only what was asked of it.
- Concurrency is not modelled: tokio tasks, channels and the atomic exit flag.
  - The feeder and the render pump are separate state machines over event sequences.
  - The busy-wait for the connection (mod.rs 76-78) is a `connected` flag per tick.
  - The feeder's result, which `join` drops (lines 237-239), is not related to the pump's.
- `DebugTimings` and the wall clock are not modelled. Time is an integer parameter.
- Integers are unbounded.
  - The `u32`/`i32`/`usize` casts in `send` and `read_payload` are not modelled.
  - The length passed to `queue_input_buffer` is not modelled.
- BinaryGcd.Gcd: modelled for inputs in `[0, i32::MAX]` only, which covers the resolutions its callers pass. Negative inputs, and the overflow `i32::MIN` could cause, are not modelled.
- MediaPlayer.RatioToLowestTerms: requires non-negative i32 inputs, not both zero. `(0, 0)` divides by zero in the source.
- DecoderBootstrap.Bootstrap.Step: requires the resolutions `get_resolution` returns to be in `[0, i32::MAX]` and not `(0, 0)`. The aspect-ratio reduction would panic otherwise.
- A finished unit shorter than five bytes while no reference frame is held panics when byte 4 is indexed. This is modelled as a `Panic`/`IndexOutOfBounds` outcome that ends the run.
- Only the H.264 arm of `start_decoder` is modelled. The other MIME types hit `todo!()` and appear only as the `Handled` predicate.
- The `MediaFormatMimeType for &str` mapping panics on an unknown string. This is modelled as a precondition.
- `set_mime_type` is taken to set the Android name of the track's type.
- In the older builder, `new`'s match on other MIME strings (`todo!`) is not modelled, since its array holds only "video/avc".
- In the prototype `main_loop`, the asset loading and the decoder creation (src/lib.rs 87-102) are not modelled. They become the starting state.
- In the prototype `wait_for_input_queue_and_native_window`, the blocking `recv` is modelled as `Blocked` when the event list runs out.
- `try_decode`'s effect on the decoder is not modelled. Its answer is a parameter.
- LegacyDecoderBuilder.LegacyAgreesWithBuilder: a codec is reduced to its profile. The older builder's `h264_custom(profile, None, None)` (decoder.rs:49) and the current `H264Codec::new(profile).into()` (builder.rs:53) are both modelled as the profile alone, so the lemma states equal profile lists, not equal codec objects.
- An empty unit from `nalu_chunks` panics when `read_payload` indexes `nalu[0]`. This is modelled as an `EmptyUnitPanic` outcome of `read_payload`, which the bootstrap turns into a `Panic` outcome that ends the run.
- DecoderBootstrap.Bootstrap.Run: the ratio handed to the media player is not part of `BootState`. `Build` states it per build.
- PrototypeFormat.CreateVideoFormat: requires the H.264 type whenever a format was created. The HEVC arm (src/media_format.rs:62) is `todo!()`, and the only caller (src/lib.rs:94-100) passes H.264.
- HEVC and AV1 CSD parsing are not modelled: `HevcCsd::from_slice` is `todo!()`.

## Findings

| source | as written | input that shows it | evidently intended | confidence | as-written member | corrected member |
|---|---|---|---|---|---|---|
| app/src/main/rust/src/media/format/mod.rs:127 | "video/av01" maps to the H.264 constant `H264_MIME_TYPE` | "video/av01" gives "video/avc", which parses as H.264 | it maps to `AV1_MIME_TYPE`, which is otherwise unused | not executed; high | VideoFormat.Av1MappedToH264 | VideoFormat.StrMimeTypePreservesType |
| app/src/main/rust/src/webrtc/decoder/mod.rs:211-236 | a failed `attach_current_thread`, `NativeWindow::new` or `set_output_surface` in the `SurfaceCreated` arm returns through `?` without `exit.store(true)`, so the feeder task is never told to stop; the caller at builder.rs:33 only logs the error | a connected peer, then `SurfaceCreated` with a failing thread attach | the exit flag is stored on every return of `start_decoder` | not executed; medium | DecoderRender.AttachFailureLeavesFeederRunning | DecoderRender.RenderPump.Run, DecoderRender.ExitStoredOnEveryReturn |
