/** The hardware codec as the receive path sees it: `MediaEngine`
    (app/src/main/rust/src/media/engine.rs) reduced to an interface that
    records what is asked of it. What the NDK answers (status codes, buffer
    indices, whether a pointer is null) is passed in by the caller of each
    method, so every possible answer is covered. */
module MediaEngineModel {
  import opened Common
  import opened MediaStatusCodes

  /** `AMEDIACODEC_INFO_*` results of `AMediaCodec_dequeueOutputBuffer`. */
  const INFO_TRY_AGAIN_LATER: int := -1
  const INFO_OUTPUT_FORMAT_CHANGED: int := -2
  const INFO_OUTPUT_BUFFERS_CHANGED: int := -3

  /** The settings a `MediaFormat` passed to `initialize` carries. */
  datatype FormatSettings = FormatSettings(
    mime: seq<char>,
    realtimePriority: bool,
    lowLatency: bool,
    resolution: Option<(int, int)>,
    maxResolution: Option<(int, int)>)

  /** The outcome of `AMediaCodec_configure` followed by `AMediaCodec_start`. */
  function InitializeResult(configureStatus: int, startStatus: int): (r: Result<(), MediaStatus>)
    ensures r.Ok? <==> configureStatus == AMEDIA_OK && startStatus == AMEDIA_OK
    ensures configureStatus != AMEDIA_OK ==> r == Success(configureStatus)
  {
    match Success(configureStatus)
    case Err(e) => Err(e)
    case Ok(_) => Success(startStatus)
  }

  /** The outcome of `release_output_buffer` for the value `dequeueOutputBuffer`
      returned and the status of the release itself. */
  function ReleaseResult(dequeued: int, releaseStatus: int): (r: Result<(), MediaStatus>)
    ensures dequeued == INFO_TRY_AGAIN_LATER ==> r == Err(NoAvailableBuffer)
    ensures dequeued in {INFO_OUTPUT_FORMAT_CHANGED, INFO_OUTPUT_BUFFERS_CHANGED} ==> r == Ok(())
    ensures dequeued >= 0 ==> r == Success(releaseStatus)
  {
    if dequeued == INFO_TRY_AGAIN_LATER then Err(NoAvailableBuffer)
    else if dequeued == INFO_OUTPUT_FORMAT_CHANGED || dequeued == INFO_OUTPUT_BUFFERS_CHANGED then Ok(())
    else Success(releaseStatus)
  }

  class MediaEngine {
    /** The codec name it was created by. */
    const name: seq<char>
    /** The format of the last successful `initialize`, if any. */
    var format: Option<FormatSettings>
    /** The window the output is rendered to. */
    var surface: Option<int>
    /** The bytes of every `queue_input_buffer` call, in order. */
    var queued: seq<seq<byte>>
    /** The codec specific data of every `submit_codec_config` that queued it. */
    var codecConfigs: seq<seq<byte>>
    /** The `render` argument of every `release_output_buffer` call, in order. */
    var releases: seq<bool>

    /** The state of a codec just created by name. */
    ghost predicate Created(n: seq<char>)
      reads this
    {
      name == n && format == None && surface == None && queued == [] && codecConfigs == [] && releases == []
    }

    constructor (n: seq<char>)
      ensures Created(n)
    {
      name := n;
      format, surface := None, None;
      queued, codecConfigs, releases := [], [], [];
    }

    /** `MediaEngine::create_by_name`: a name with a NUL cannot be passed to C;
        `created` is whether `AMediaCodec_createCodecByName` returned a codec. */
    static method CreateByName(n: seq<char>, created: bool) returns (r: Result<MediaEngine, MediaStatus>)
      ensures '\0' in n ==> r == Err(StringNulError)
      ensures '\0' !in n && !created ==> r == Err(MediaCodecCreationFailed)
      ensures r.Ok? <==> '\0' !in n && created
      ensures r.Ok? ==> fresh(r.value) && r.value.Created(n)
    {
      if '\0' in n {
        return Err(StringNulError);
      }
      if !created {
        return Err(MediaCodecCreationFailed);
      }
      var engine := new MediaEngine(n);
      return Ok(engine);
    }

    /** `initialize(format, window, false)`: configure, then start. */
    method Initialize(f: FormatSettings, window: Option<int>, configureStatus: int, startStatus: int)
      returns (r: Result<(), MediaStatus>)
      modifies this
      ensures r == InitializeResult(configureStatus, startStatus)
      ensures r.Ok? ==> format == Some(f) && surface == window
      ensures r.Err? ==> format == old(format) && surface == old(surface)
      ensures queued == old(queued) && codecConfigs == old(codecConfigs) && releases == old(releases)
    {
      r := InitializeResult(configureStatus, startStatus);
      if r.Ok? {
        format, surface := Some(f), window;
      }
    }

    /** `set_output_surface`. */
    method SetOutputSurface(window: int, status: int) returns (r: Result<(), MediaStatus>)
      modifies this
      ensures r == Success(status)
      ensures surface == if r.Ok? then Some(window) else old(surface)
      ensures format == old(format) && queued == old(queued)
      ensures codecConfigs == old(codecConfigs) && releases == old(releases)
    {
      r := Success(status);
      if r.Ok? {
        surface := Some(window);
      }
    }

    /** `dequeue_input_buffer`: index -1 means no buffer, a null buffer pointer an
        allocation error. The buffer is returned by its index. */
    method DequeueInputBuffer(index: int, bufferPresent: bool) returns (r: Result<int, MediaStatus>)
      ensures index == -1 ==> r == Err(NoAvailableBuffer)
      ensures index != -1 && !bufferPresent ==> r == Err(AllocationError)
      ensures index != -1 && bufferPresent ==> r == Ok(index)
    {
      if index == -1 {
        return Err(NoAvailableBuffer);
      }
      if !bufferPresent {
        return Err(AllocationError);
      }
      return Ok(index);
    }

    /** `queue_input_buffer` of `data`. */
    method QueueInputBuffer(data: seq<byte>, status: int) returns (r: Result<(), MediaStatus>)
      modifies this
      ensures r == Success(status)
      ensures queued == old(queued) + [data]
      ensures format == old(format) && surface == old(surface)
      ensures codecConfigs == old(codecConfigs) && releases == old(releases)
    {
      queued := queued + [data];
      r := Success(status);
    }

    /** `submit_codec_config`: the data, cut to the buffer's length, is queued with
        the codec-config flag into a freshly dequeued buffer. */
    method SubmitCodecConfig(data: seq<byte>, index: int, bufferPresent: bool, bufferLength: nat, status: int)
      returns (r: Result<(), MediaStatus>)
      modifies this
      ensures index == -1 ==> r == Err(NoAvailableBuffer) && codecConfigs == old(codecConfigs)
      ensures index != -1 && !bufferPresent ==> r == Err(AllocationError) && codecConfigs == old(codecConfigs)
      ensures index != -1 && bufferPresent ==>
        r == Success(status) &&
        codecConfigs == old(codecConfigs) + [data[..if |data| < bufferLength then |data| else bufferLength]]
      ensures format == old(format) && surface == old(surface)
      ensures queued == old(queued) && releases == old(releases)
    {
      var buffer := DequeueInputBuffer(index, bufferPresent);
      if buffer.Err? {
        return Err(buffer.error);
      }
      var minLength := if |data| < bufferLength then |data| else bufferLength;
      codecConfigs := codecConfigs + [data[..minLength]];
      r := Success(status);
    }

    /** `release_output_buffer(INFINITE, render)`. */
    method ReleaseOutputBuffer(render: bool, dequeued: int, releaseStatus: int) returns (r: Result<(), MediaStatus>)
      modifies this
      ensures r == ReleaseResult(dequeued, releaseStatus)
      ensures releases == old(releases) + [render]
      ensures format == old(format) && surface == old(surface)
      ensures queued == old(queued) && codecConfigs == old(codecConfigs)
    {
      releases := releases + [render];
      r := ReleaseResult(dequeued, releaseStatus);
    }
  }
}
