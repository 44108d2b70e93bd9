/** How `start_decoder` gets a running codec
    (app/src/main/rust/src/webrtc/decoder/mod.rs): the lookups of lines 82-111,
    then `create_media_engine` (lines 254-367), which feeds the first units of
    the track to `H264Decoder` until SPS, PPS and resolution are known and a
    window exists, and then builds, configures and starts the codec. */
module DecoderBootstrap {
  import opened Common
  import opened MediaStatusCodes
  import opened Mime
  import opened DecoderEvents
  import opened RtcpHelper
  import opened MediaEngineModel
  import opened H264Config
  import opened BinaryGcd
  import MediaPlayer

  /** The lookups before the codec is built: the track's MIME name must parse,
      a decoder must be known for it, and the event receiver must not have been
      taken. */
  function StartDecoderSetup(mimeName: seq<char>, codecMap: map<MimeType, seq<char>>, receiverAvailable: bool)
    : (r: Result<(MimeType, seq<char>), DecoderError>)
    ensures FromStr(mimeName).Err? ==> r == Err(UnknownMimeType)
    ensures FromStr(mimeName).Ok? && FromStr(mimeName).value !in codecMap ==> r == Err(NoDecoderFound)
    ensures FromStr(mimeName).Ok? && FromStr(mimeName).value in codecMap && !receiverAvailable ==>
      r == Err(FailedToGetReceiver)
    ensures r.Ok? <==> FromStr(mimeName).Ok? && FromStr(mimeName).value in codecMap && receiverAvailable
    ensures r.Ok? ==> Spells(mimeName, r.value.0) && r.value.1 == codecMap[r.value.0]
  {
    match FromStr(mimeName)
    case Err(_) => Err(UnknownMimeType)
    case Ok(m) =>
      if m !in codecMap then Err(NoDecoderFound)
      else if !receiverAvailable then Err(FailedToGetReceiver)
      else Ok((m, codecMap[m]))
  }

  /** The MIME types `start_decoder` goes on with; the others are `todo!()`. */
  predicate Handled(m: MimeType) {
    m == VideoH264
  }

  /** A track announced under any spelling of a MIME type, in any ASCII case,
      gets the decoder registered for that type. */
  lemma SetupFindsRegisteredDecoder(m: MimeType, mimeName: seq<char>, codecMap: map<MimeType, seq<char>>)
    requires Spells(mimeName, m) && m in codecMap
    ensures StartDecoderSetup(mimeName, codecMap, true) == Ok((m, codecMap[m]))
  {
    SpellsClassified(mimeName, m);
  }

  /** The format `create_media_engine` configures the codec with: the Android
      MIME name, realtime priority, low latency from API level 30 on, and the
      resolution (also as the maximum resolution) when it is known. */
  function BootFormat(m: MimeType, apiLevel: int, resolution: Option<(int, int)>): (f: FormatSettings)
    ensures f.lowLatency <==> apiLevel >= 30
    ensures f.realtimePriority
    ensures f.resolution == resolution && f.maxResolution == resolution
  {
    FormatSettings(ToAndroidStr(m), true, apiLevel >= 30, resolution, resolution)
  }

  /** The MIME name in the format reads back as the track's MIME type. */
  lemma BootFormatNamesTrackType(m: MimeType, apiLevel: int, resolution: Option<(int, int)>)
    ensures FromStr(BootFormat(m, apiLevel, resolution).mime) == Ok(m)
  {
    AndroidStrRoundTrip(m);
  }

  /** What the JNI and NDK calls of the build answer. */
  datatype BuildInputs = BuildInputs(
    formatCreated: bool,   // `AMediaFormat_new` returns a format
    apiLevel: int,
    attachOk: bool,        // `attach_current_thread` succeeds
    aspectOk: bool,        // `setMediaPlayerAspectRatio` succeeds
    codecCreated: bool,    // `AMediaCodec_createCodecByName` returns a codec
    configureStatus: int,
    startStatus: int,
    csdIndex: int,         // the input buffer dequeued for the codec configuration
    csdBufferPresent: bool,
    csdBufferLength: nat,
    csdStatus: int)        // status of queueing the codec configuration

  /** The first failure of the build, if any, in the order the calls are made. */
  function BuildFailure(io: BuildInputs, name: seq<char>, resolutionKnown: bool): Option<DecoderError> {
    if !io.formatCreated then Some(MediaEngine(AllocationError))
    else if resolutionKnown && !io.attachOk then Some(AttachThread)
    else if resolutionKnown && !io.aspectOk then Some(SetAspectRatio)
    else if '\0' in name then Some(MediaEngine(StringNulError))
    else if !io.codecCreated then Some(MediaEngine(MediaCodecCreationFailed))
    else if InitializeResult(io.configureStatus, io.startStatus).Err? then
      Some(MediaEngine(InitializeResult(io.configureStatus, io.startStatus).error))
    else if io.csdIndex == -1 then Some(MediaEngine(NoAvailableBuffer))
    else if !io.csdBufferPresent then Some(MediaEngine(AllocationError))
    else if Success(io.csdStatus).Err? then Some(MediaEngine(Success(io.csdStatus).error))
    else None
  }

  /** A build fails only through one of its calls failing: with every call
      succeeding it yields a codec. */
  lemma BuildSucceedsWhenCallsDo(io: BuildInputs, name: seq<char>, resolutionKnown: bool)
    ensures BuildFailure(io, name, resolutionKnown).None? <==>
      io.formatCreated && (resolutionKnown ==> io.attachOk && io.aspectOk) &&
      '\0' !in name && io.codecCreated &&
      io.configureStatus == AMEDIA_OK && io.startStatus == AMEDIA_OK &&
      io.csdIndex != -1 && io.csdBufferPresent && io.csdStatus == AMEDIA_OK
  {
  }

  /** The pair handed to the media player's aspect ratio: the resolution in
      lowest terms. */
  ghost predicate LowestTerms(w: int, h: int, width: int, height: int) {
    w * height == h * width && IsGcd(1, w, h) &&
    (width == 0 ==> w == 0 && h == 1) && (height == 0 ==> w == 1 && h == 0)
  }

  /** A resolution the gcd can reduce: within `i32`, not negative and not `(0, 0)`. */
  predicate Reducible(res: (int, int)) {
    0 <= res.0 <= I32_MAX && 0 <= res.1 <= I32_MAX && (res.0 != 0 || res.1 != 0)
  }

  /** What one iteration sees: whether the peer is connected, the answers of the
      build (used when the codec is built), the result of `try_recv`, the JNI
      answers for a new surface, and for an empty poll the track event with the
      NAL units `nalu_chunks` finds in a finished unit and the PLI outcome. */
  datatype BootTick = BootTick(
    connected: bool,
    build: BuildInputs,
    poll: Poll,
    attachOk: bool,
    windowOk: bool,
    track: TrackEvent,
    chunks: seq<seq<byte>>,
    now: int,
    pliWriteOk: bool)

  /** How an iteration ends: go on, a built codec, an error returned, or a
      panic in `read_payload`. */
  datatype BootStep = Continue | Built(engine: MediaEngine) | Fail(error: DecoderError) | Panic

  /** What an empty poll does with the track event. */
  datatype TrackAction =
    | ReadPayload          // hand the unit to the H.264 decoder, re-wrap; a PLI if it is rejected
    | RequestPliAndRewrap  // a PLI, then finish and re-wrap the reader
    | RewrapAndRequestPli  // finish and re-wrap the reader, then a PLI
    | Nothing

  function BootTrackAction(e: TrackEvent): (a: TrackAction)
    ensures a == ReadPayload <==> e.UnitFinished?
    ensures a == RequestPliAndRewrap <==> e.PushFailed? && e.error != NeedMoreInput
    ensures a == RewrapAndRequestPli <==> e.RecvFailed? && ResetsStream(e)
    ensures a == Nothing <==> IgnoredEvent(e)
  {
    match e
    case UnitFinished(_) => ReadPayload
    case PushFailed(err) => if err == NeedMoreInput then Nothing else RequestPliAndRewrap
    case RecvFailed(reason) =>
      if reason in {HeaderParsingError, TrackRemoteReadError, BufferFull} then RewrapAndRequestPli
      else Nothing
  }

  /** The track events that ask for a PLI whatever the decoder makes of them
      are exactly the ones on which the feeder resets the stream. */
  lemma BootstrapRequestsPliWhereFeederResets(e: TrackEvent)
    ensures BootTrackAction(e) in {RequestPliAndRewrap, RewrapAndRequestPli} <==> ResetsStream(e)
    ensures BootTrackAction(e) == Nothing <==> IgnoredEvent(e)
  {
  }

  /** `native_window` after a poll that did not end the loop. */
  function WindowAfter(window: Option<int>, p: Poll, attachOk: bool, windowOk: bool): (w: Option<int>)
    ensures p == Received(SurfaceDestroyed) ==> w.None?
    ensures p.Received? && p.event.SurfaceCreated? && attachOk && windowOk ==> w == Some(p.event.surface)
    ensures !(p.Received? && p.event.SurfaceCreated? && attachOk && windowOk) && p != Received(SurfaceDestroyed) ==>
      w == window
  {
    match p
    case Received(SurfaceCreated(surface)) => if attachOk && windowOk then Some(surface) else window
    case Received(SurfaceDestroyed) => None
    case _ => window
  }

  /** How a poll ends the iteration, when it does not build. */
  function PollOutcome(p: Poll, attachOk: bool, windowOk: bool): (o: Option<DecoderError>)
    ensures p == Received(MainActivityDestroyed) || p == Disconnected ==> o == Some(ApplicationClosed)
    ensures p.Received? && p.event.SurfaceCreated? ==>
      o == (if !attachOk then Some(AttachThread) else if !windowOk then Some(NativeWindowCreate) else None)
    ensures p == Empty || p == Received(SurfaceDestroyed) ==> o.None?
  {
    match p
    case Received(MainActivityDestroyed) => Some(ApplicationClosed)
    case Received(SurfaceCreated(_)) =>
      if !attachOk then Some(AttachThread) else if !windowOk then Some(NativeWindowCreate) else None
    case Received(SurfaceDestroyed) => None
    case Disconnected => Some(ApplicationClosed)
    case Empty => None
  }

  /** What the loop carries from one iteration to the next: `native_window`,
      the H.264 decoder's fields, the limiter's `last_pli_time`, the PLIs asked
      of it and how often the reader was wrapped. */
  datatype BootState = BootState(window: Option<int>, decoder: H264State, lastPliTime: int,
                                 pliRequests: nat, wraps: nat)

  /** How an iteration ends, without the codec a build returns. */
  datatype BootEnd = Going | Builds | Fails(error: DecoderError) | Panics

  /** The outcome `r` of an iteration is of the kind `e`. */
  predicate Matches(r: BootStep, e: BootEnd) {
    match r
    case Continue => e == Going
    case Built(_) => e == Builds
    case Fail(err) => e == Fails(err)
    case Panic => e == Panics
  }

  /** An empty poll with the track event of `t`: `read_payload` on a finished
      unit, a PLI when the unit is rejected or the track reports a resetting
      error, and the reader wrapped again unless the PLI write failed first or
      `read_payload` panicked. */
  function ConsumeSpec(s: BootState, t: BootTick, resolutionOf: seq<byte> -> Option<(int, int)>): (BootEnd, BootState) {
    var a := BootTrackAction(t.track);
    var read := ReadPayloadSpec(s.decoder, if t.track.UnitFinished? then t.track.nalu else [], t.chunks, resolutionOf);
    var sent := SendStep(s.lastPliTime, PLI_INTERVAL, t.now, t.pliWriteOk);
    var panics := a == ReadPayload && read.0 == EmptyUnitPanic;
    var asks := a in {RequestPliAndRewrap, RewrapAndRequestPli} || (a == ReadPayload && read.0 == Returned(Err(())));
    var failed := asks && sent.0.Err?;
    var wrapped := !(a == Nothing || panics || (failed && a != RewrapAndRequestPli));
    (if panics then Panics else if failed then Fails(RtcpSend) else Going,
     BootState(s.window, if a == ReadPayload then read.1 else s.decoder,
               if asks then sent.1 else s.lastPliTime,
               s.pliRequests + (if asks then 1 else 0), s.wraps + (if wrapped then 1 else 0)))
  }

  /** One iteration of the loop of `create_media_engine`: a lost peer ends it,
      a window and a complete configuration build the codec, otherwise the
      poll is handled and an empty poll reads the track. */
  function BootStepSpec(s: BootState, t: BootTick, name: seq<char>,
                        resolutionOf: seq<byte> -> Option<(int, int)>): (BootEnd, BootState) {
    if !t.connected then (Fails(ApplicationClosed), s)
    else if s.window.Some? && InitDone(s.decoder) then
      var failure := BuildFailure(t.build, name, true);
      (if failure.Some? then Fails(failure.value) else Builds, s)
    else
      var o := PollOutcome(t.poll, t.attachOk, t.windowOk);
      if o.Some? then (Fails(o.value), s)
      else if t.poll != Empty then (Going, s.(window := WindowAfter(s.window, t.poll, t.attachOk, t.windowOk)))
      else ConsumeSpec(s, t, resolutionOf)
  }

  /** The loop over `ticks`: each iteration in turn, up to the first one that
      does not go on, whose outcome and state are final. */
  function BootRun(s: BootState, ticks: seq<BootTick>, name: seq<char>,
                   resolutionOf: seq<byte> -> Option<(int, int)>): (BootEnd, BootState)
    decreases |ticks|
  {
    if ticks == [] then (Going, s)
    else
      var prev := BootRun(s, ticks[..|ticks| - 1], name, resolutionOf);
      if prev.0 != Going then prev else BootStepSpec(prev.1, ticks[|ticks| - 1], name, resolutionOf)
  }

  /** Once an iteration ends the loop, later ticks change nothing. */
  lemma {:induction false} BootRunStopsAtFirst(s: BootState, ticks: seq<BootTick>, n: nat, name: seq<char>,
                                               resolutionOf: seq<byte> -> Option<(int, int)>)
    requires n <= |ticks| && BootRun(s, ticks[..n], name, resolutionOf).0 != Going
    ensures BootRun(s, ticks, name, resolutionOf) == BootRun(s, ticks[..n], name, resolutionOf)
    decreases |ticks|
  {
    if n < |ticks| {
      assert ticks[..|ticks| - 1][..n] == ticks[..n];
      BootRunStopsAtFirst(s, ticks[..|ticks| - 1], n, name, resolutionOf);
    } else {
      assert ticks[..n] == ticks;
    }
  }

  /** The loop keeps the decoder's configuration consistent, never clears a
      field of it, and keeps `init_done`. */
  lemma {:induction false} BootRunKeepsDecoder(s: BootState, ticks: seq<BootTick>, name: seq<char>,
                                               resolutionOf: seq<byte> -> Option<(int, int)>)
    requires Consistent(s.decoder)
    ensures var d := BootRun(s, ticks, name, resolutionOf).1.decoder;
      Consistent(d) && Grows(s.decoder, d) && (InitDone(s.decoder) ==> InitDone(d))
    decreases |ticks|
  {
    if ticks != [] {
      var prev := BootRun(s, ticks[..|ticks| - 1], name, resolutionOf);
      BootRunKeepsDecoder(s, ticks[..|ticks| - 1], name, resolutionOf);
      if prev.0 == Going {
        var t := ticks[|ticks| - 1];
        ReadPayloadKeeps(prev.1.decoder, if t.track.UnitFinished? then t.track.nalu else [], t.chunks, resolutionOf);
      }
    }
  }

  /** The loop builds a codec only once a window exists and SPS, PPS and
      resolution are known, and the build changes none of them. */
  lemma {:induction false} BootRunBuildsOnlyWhenReady(s: BootState, ticks: seq<BootTick>, name: seq<char>,
                                                      resolutionOf: seq<byte> -> Option<(int, int)>)
    ensures var run := BootRun(s, ticks, name, resolutionOf);
      run.0 == Builds ==> run.1.window.Some? && InitDone(run.1.decoder)
    decreases |ticks|
  {
    if ticks != [] {
      BootRunBuildsOnlyWhenReady(s, ticks[..|ticks| - 1], name, resolutionOf);
    }
  }

  class Bootstrap {
    const mime: MimeType
    const decoderName: seq<char>
    /** `H264Codec::get_resolution`, from the external crate. */
    const resolutionOf: seq<byte> -> Option<(int, int)>
    const pli: RateLimitedPli
    const decoder: H264Decoder
    var nativeWindow: Option<int>
    /** How often the reader was wrapped around the payload buffer. */
    var wraps: nat
    /** The PLIs asked of the rate limiter so far. */
    ghost var pliRequests: nat
    /** The ratio handed to the media player, if any. */
    var aspectRatio: Option<(int, int)>

    ghost predicate Valid()
      reads this, pli, decoder
    {
      pli.Valid() && pli.pliInterval == PLI_INTERVAL && Consistent(decoder.State()) &&
      (decoder.resolution.Some? ==> Reducible(decoder.resolution.value))
    }

    /** Every resolution the SPS parser reports can be reduced. */
    ghost predicate ParsesReducible()
    {
      forall nalu :: resolutionOf(nalu).Some? ==> Reducible(resolutionOf(nalu).value)
    }

    /** The state the loop carries, as a value. */
    ghost function Abstract(): BootState
      reads this, pli, decoder
    {
      BootState(nativeWindow, decoder.State(), pli.lastPliTime, pliRequests, wraps)
    }

    constructor (mime: MimeType, decoderName: seq<char>, resolutionOf: seq<byte> -> Option<(int, int)>, mediaSsrc: int)
      ensures Valid() && fresh(pli) && fresh(decoder)
      ensures this.mime == mime && this.decoderName == decoderName && this.resolutionOf == resolutionOf
      ensures decoder.State() == EMPTY && nativeWindow.None? && aspectRatio.None?
      ensures wraps == 1 && pliRequests == 0 && pli.lastPliTime == UNIX_EPOCH
    {
      this.mime := mime;
      this.decoderName := decoderName;
      this.resolutionOf := resolutionOf;
      pli := new RateLimitedPli(mediaSsrc, PLI_INTERVAL);
      decoder := new H264Decoder();
      nativeWindow := None;
      wraps := 1;
      pliRequests := 0;
      aspectRatio := None;
    }

    /** `pli.send(peer).await?`. */
    method RequestPli(now: int, writeOk: bool) returns (r: Result<(), SendError>)
      requires Valid()
      modifies pli, this
      ensures Valid()
      ensures (r, pli.lastPliTime) == SendStep(old(pli.lastPliTime), PLI_INTERVAL, now, writeOk)
      ensures pliRequests == old(pliRequests) + 1
      ensures nativeWindow == old(nativeWindow) && wraps == old(wraps) && aspectRatio == old(aspectRatio)
    {
      r := pli.Send(now, writeOk);
      pliRequests := pliRequests + 1;
    }

    /** A codec as the build leaves it: created under the decoder's name,
        configured with the track's format and resolution and the window,
        holding the codec configuration cut to its input buffer and nothing
        else, and the media player told the resolution in lowest terms. */
    ghost predicate Assembled(engine: MediaEngine, io: BuildInputs)
      reads this, decoder, engine
    {
      nativeWindow.Some? && InitDone(decoder.State()) &&
      var config := decoder.codecConfig.value;
      var cut := if |config| < io.csdBufferLength then |config| else io.csdBufferLength;
      engine.name == decoderName &&
      engine.format == Some(BootFormat(mime, io.apiLevel, decoder.resolution)) &&
      engine.surface == nativeWindow &&
      engine.codecConfigs == [config[..cut]] &&
      engine.queued == [] && engine.releases == [] &&
      aspectRatio.Some? &&
      LowestTerms(aspectRatio.value.0, aspectRatio.value.1, decoder.resolution.value.0, decoder.resolution.value.1)
    }

    /** The build of lines 277-304, once a window and the codec configuration
        are there. */
    method Build(io: BuildInputs) returns (r: BootStep)
      requires Valid() && nativeWindow.Some? && InitDone(decoder.State())
      modifies this
      ensures Valid() && nativeWindow == old(nativeWindow) && wraps == old(wraps) && pliRequests == old(pliRequests)
      ensures r.Built? || r.Fail?
      ensures var failure := BuildFailure(io, decoderName, true);
        (r.Fail? <==> failure.Some?) && (r.Fail? ==> r.error == failure.value)
      ensures r.Built? ==> fresh(r.engine) && Assembled(r.engine, io)
      ensures aspectRatio == old(aspectRatio) ||
        (io.formatCreated && io.attachOk && io.aspectOk && aspectRatio.Some? &&
         LowestTerms(aspectRatio.value.0, aspectRatio.value.1, decoder.resolution.value.0, decoder.resolution.value.1))
    {
      if !io.formatCreated {
        return Fail(MediaEngine(AllocationError));
      }
      var format := BootFormat(mime, io.apiLevel, decoder.resolution);
      if decoder.resolution.Some? {
        var (width, height) := decoder.resolution.value;
        if !io.attachOk {
          return Fail(AttachThread);
        }
        // `set_media_player_aspect_ratio` reduces the ratio as `ratio_to_lowest_terms` does
        var w, h := MediaPlayer.RatioToLowestTerms(width, height);
        if !io.aspectOk {
          return Fail(SetAspectRatio);
        }
        aspectRatio := Some((w, h));
      }
      var created := MediaEngine.CreateByName(decoderName, io.codecCreated);
      if created.Err? {
        return Fail(MediaEngine(created.error));
      }
      var engine := created.value;
      var started := engine.Initialize(format, nativeWindow, io.configureStatus, io.startStatus);
      if started.Err? {
        return Fail(MediaEngine(started.error));
      }
      var submitted := engine.SubmitCodecConfig(decoder.codecConfig.value, io.csdIndex,
                                                io.csdBufferPresent, io.csdBufferLength, io.csdStatus);
      if submitted.Err? {
        return Fail(MediaEngine(submitted.error));
      }
      return Built(engine);
    }

    /** One iteration of the loop of `create_media_engine`. */
    method Step(t: BootTick) returns (r: BootStep)
      requires Valid() && ParsesReducible()
      modifies this, pli, decoder
      ensures Valid()
      ensures !t.connected ==>
        r == Fail(ApplicationClosed) && decoder.State() == old(decoder.State()) && nativeWindow == old(nativeWindow)
      ensures r.Built? ==>
        t.connected && old(nativeWindow).Some? && InitDone(old(decoder.State())) &&
        fresh(r.engine) && Assembled(r.engine, t.build)
      ensures t.connected && old(nativeWindow).Some? && InitDone(old(decoder.State())) ==>
        r != Continue && decoder.State() == old(decoder.State()) &&
        (r.Built? <==> BuildFailure(t.build, decoderName, true).None?)
      ensures t.connected && !(old(nativeWindow).Some? && InitDone(old(decoder.State()))) ==>
        var o := PollOutcome(t.poll, t.attachOk, t.windowOk);
        (o.Some? ==> r == Fail(o.value) && nativeWindow == old(nativeWindow)) &&
        (o.None? ==> nativeWindow == WindowAfter(old(nativeWindow), t.poll, t.attachOk, t.windowOk)) &&
        (t.poll != Empty ==> decoder.State() == old(decoder.State()) && pliRequests == old(pliRequests)) &&
        (t.poll == Empty ==>
          var a := BootTrackAction(t.track);
          var read := ReadPayloadSpec(old(decoder.State()), if t.track.UnitFinished? then t.track.nalu else [],
                                      t.chunks, resolutionOf);
          var sent := SendStep(old(pli.lastPliTime), PLI_INTERVAL, t.now, t.pliWriteOk);
          var panics := a == ReadPayload && read.0 == EmptyUnitPanic;
          var asks := a in {RequestPliAndRewrap, RewrapAndRequestPli} || (a == ReadPayload && read.0 == Returned(Err(())));
          decoder.State() == (if a == ReadPayload then read.1 else old(decoder.State())) &&
          pliRequests == old(pliRequests) + (if asks then 1 else 0) &&
          pli.lastPliTime == (if asks then sent.1 else old(pli.lastPliTime)) &&
          (r == Panic <==> panics) &&
          (r == Fail(RtcpSend) <==> asks && sent.0.Err?) &&
          (r != Fail(RtcpSend) && r != Panic ==> r == Continue))
      ensures Grows(old(decoder.State()), decoder.State())
      ensures InitDone(old(decoder.State())) ==> InitDone(decoder.State())
      ensures var step := BootStepSpec(old(Abstract()), t, decoderName, resolutionOf);
        Matches(r, step.0) && Abstract() == step.1
    {
      if !t.connected {
        return Fail(ApplicationClosed);
      }
      if nativeWindow.Some? && InitDone(decoder.State()) {
        r := Build(t.build);
        return;
      }
      match t.poll {
        case Received(event) =>
          match event {
            case MainActivityDestroyed =>
              return Fail(ApplicationClosed);
            case SurfaceCreated(surface) =>
              if !t.attachOk {
                return Fail(AttachThread);
              }
              if !t.windowOk {
                return Fail(NativeWindowCreate);
              }
              nativeWindow := Some(surface);
            case SurfaceDestroyed =>
              nativeWindow := None;
          }
          return Continue;
        case Disconnected =>
          return Fail(ApplicationClosed);
        case Empty =>
          r := Consume(t);
      }
    }

    /** An empty poll: one event of the track. */
    method Consume(t: BootTick) returns (r: BootStep)
      requires Valid() && ParsesReducible()
      modifies this, pli, decoder
      ensures Valid() && nativeWindow == old(nativeWindow)
      ensures var a := BootTrackAction(t.track);
        var read := ReadPayloadSpec(old(decoder.State()), if t.track.UnitFinished? then t.track.nalu else [],
                                    t.chunks, resolutionOf);
        var sent := SendStep(old(pli.lastPliTime), PLI_INTERVAL, t.now, t.pliWriteOk);
        var panics := a == ReadPayload && read.0 == EmptyUnitPanic;
        var asks := a in {RequestPliAndRewrap, RewrapAndRequestPli} || (a == ReadPayload && read.0 == Returned(Err(())));
        decoder.State() == (if a == ReadPayload then read.1 else old(decoder.State())) &&
        pliRequests == old(pliRequests) + (if asks then 1 else 0) &&
        pli.lastPliTime == (if asks then sent.1 else old(pli.lastPliTime)) &&
        (r == Panic <==> panics) &&
        (r == Fail(RtcpSend) <==> asks && sent.0.Err?) &&
        (r != Fail(RtcpSend) && r != Panic ==> r == Continue) &&
        wraps == old(wraps) + (if a == Nothing || panics || (a == RequestPliAndRewrap && sent.0.Err?) ||
                                  (a == ReadPayload && asks && sent.0.Err?) then 0 else 1)
      ensures Grows(old(decoder.State()), decoder.State())
      ensures InitDone(old(decoder.State())) ==> InitDone(decoder.State())
      ensures var step := ConsumeSpec(old(Abstract()), t, resolutionOf);
        Matches(r, step.0) && Abstract() == step.1
    {
      match t.track {
        case UnitFinished(nalu) =>
          ReadPayloadKeeps(decoder.State(), nalu, t.chunks, resolutionOf);
          var read := decoder.ReadPayload(nalu, t.chunks, resolutionOf);
          ReadPayloadReducible(old(decoder.State()), nalu, t.chunks);
          if read == EmptyUnitPanic {
            return Panic;
          }
          if read == Returned(Err(())) {
            var sent := RequestPli(t.now, t.pliWriteOk);
            if sent.Err? {
              return Fail(RtcpSend);
            }
          }
          wraps := wraps + 1;
          return Continue;
        case PushFailed(err) =>
          if err == NeedMoreInput {
            return Continue;
          }
          var sent := RequestPli(t.now, t.pliWriteOk);
          if sent.Err? {
            return Fail(RtcpSend);
          }
          wraps := wraps + 1;
          return Continue;
        case RecvFailed(reason) =>
          if reason in {HeaderParsingError, TrackRemoteReadError, BufferFull} {
            wraps := wraps + 1;
            var sent := RequestPli(t.now, t.pliWriteOk);
            if sent.Err? {
              return Fail(RtcpSend);
            }
          }
          return Continue;
      }
    }

    /** The decoder's resolution stays one the gcd can reduce. */
    lemma ReadPayloadReducible(s: H264State, payload: seq<byte>, chunks: seq<seq<byte>>)
      requires ParsesReducible()
      requires s.resolution.Some? ==> Reducible(s.resolution.value)
      ensures var t := ReadPayloadSpec(s, payload, chunks, resolutionOf).1;
        t.resolution.Some? ==> Reducible(t.resolution.value)
    {
      if payload != [] {
        ApplyChunksReducible(s, chunks);
      }
    }

    lemma {:induction false} ApplyChunksReducible(s: H264State, chunks: seq<seq<byte>>)
      requires ParsesReducible()
      requires s.resolution.Some? ==> Reducible(s.resolution.value)
      ensures var t := ApplyChunks(s, chunks, resolutionOf).1;
        t.resolution.Some? ==> Reducible(t.resolution.value)
      decreases |chunks|
    {
      if chunks != [] && chunks[0] != [] {
        var next := ChunkStep(s, chunks[0], resolutionOf);
        if next.Some? {
          ApplyChunksReducible(next.value, chunks[1..]);
        }
      }
    }

    /** What the loop relies on of one iteration. */
    method Iteration(t: BootTick) returns (r: BootStep)
      requires Valid() && ParsesReducible()
      modifies this, pli, decoder
      ensures Valid()
      ensures r.Built? ==> fresh(r.engine) && Assembled(r.engine, t.build)
      ensures Grows(old(decoder.State()), decoder.State())
      ensures var step := BootStepSpec(old(Abstract()), t, decoderName, resolutionOf);
        Matches(r, step.0) && Abstract() == step.1
    {
      r := Step(t);
    }

    /** The loop of `create_media_engine` over the iterations it gets to: it
        stops at the first that builds a codec, fails or panics, and its outcome
        and state are those of `BootRun` on the ticks processed, every earlier
        tick having gone on. */
    method Run(ticks: seq<BootTick>) returns (r: BootStep, processed: nat)
      requires Valid() && ParsesReducible()
      modifies this, pli, decoder
      ensures Valid()
      ensures processed <= |ticks|
      ensures r == Continue ==> processed == |ticks|
      ensures r.Built? ==> 0 < processed && Assembled(r.engine, ticks[processed - 1].build)
      ensures var run := BootRun(old(Abstract()), ticks[..processed], decoderName, resolutionOf);
        Matches(r, run.0) && Abstract() == run.1
      ensures 0 < processed ==> BootRun(old(Abstract()), ticks[..processed - 1], decoderName, resolutionOf).0 == Going
      ensures Grows(old(decoder.State()), decoder.State())
    {
      ghost var s0 := Abstract();
      var i := 0;
      while i < |ticks|
        invariant Valid() && i <= |ticks|
        invariant BootRun(s0, ticks[..i], decoderName, resolutionOf) == (Going, Abstract())
        invariant Grows(old(decoder.State()), decoder.State())
      {
        ghost var before := Abstract();
        assert ticks[..i + 1][..i] == ticks[..i] && ticks[..i + 1][i] == ticks[i];
        assert BootRun(s0, ticks[..i + 1], decoderName, resolutionOf) ==
          BootStepSpec(before, ticks[i], decoderName, resolutionOf);
        r := Iteration(ticks[i]);
        if r != Continue {
          processed := i + 1;
          assert ticks[processed - 1] == ticks[i];
          return;
        }
        i := i + 1;
      }
      assert ticks[..i] == ticks;
      r, processed := Continue, i;
    }
  }
}
