/** What the decoder loops of app/src/main/rust/src/webrtc/decoder/mod.rs
    receive and return: the results of the reorder buffer and the depacketizer
    (both in an external crate, so only their outcomes appear), the lifecycle
    events of the media player activity, and `DecoderError`. */
module DecoderEvents {
  import opened Common
  import opened MediaStatusCodes

  /** `PLI_INTERVAL`, in milliseconds of the integer clock. */
  const PLI_INTERVAL: nat := 50
  const NUM_BUFFERED_PACKETS: nat := 128
  const MAX_NALU_SIZE: nat := 250000

  datatype DecoderError =
    | MediaEngine(status: MediaStatus)
    | RtcpSend
    | AttachThread
    | SetAspectRatio
    | UnknownMimeType
    | FailedToGetReceiver
    | NativeWindowCreate
    | NoDecoderFound
    | ApplicationClosed

  /** The failures of `BufferedTrackRemote::recv` the loops tell apart; the last
      two fall under the catch-all arm. */
  datatype ReorderBufferError =
    | HeaderParsingError
    | TrackRemoteReadError
    | PacketTooShort
    | BufferFull
    | TrackRemoteReadTimeout
    | UnableToMaintainReorderBuffer

  /** `push` either needs more packets before a unit is complete or fails. */
  datatype DepacketizerError = NeedMoreInput | Malformed

  /** One iteration's view of the track: `recv` and, for a payload, `push`. A
      finished unit is the bytes `finish` reports as written into the buffer. */
  datatype TrackEvent =
    | UnitFinished(nalu: seq<byte>)
    | PushFailed(error: DepacketizerError)
    | RecvFailed(reason: ReorderBufferError)

  /** The events on which both loops finish and re-wrap the reader and send a
      PLI: a depacketizer failure other than `NeedMoreInput`, and a header
      parsing error, a read error or a full buffer from the reorder buffer. */
  predicate ResetsStream(e: TrackEvent) {
    (e.PushFailed? && e.error != NeedMoreInput) ||
    (e.RecvFailed? && e.reason in {HeaderParsingError, TrackRemoteReadError, BufferFull})
  }

  /** The events on which both loops do nothing at all. */
  predicate IgnoredEvent(e: TrackEvent) {
    e == PushFailed(NeedMoreInput) ||
    (e.RecvFailed? && e.reason !in {HeaderParsingError, TrackRemoteReadError, BufferFull})
  }

  /** `MediaPlayerEvent`; a surface is named by an integer handle. */
  datatype MediaPlayerEvent = MainActivityDestroyed | SurfaceCreated(surface: int) | SurfaceDestroyed

  /** The result of `receiver.try_recv()`. */
  datatype Poll = Received(event: MediaPlayerEvent) | Disconnected | Empty
}
