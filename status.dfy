/** Classification of the Android NDK `media_status_t` codes returned by the
    hardware codec API (app/src/main/rust/src/media/status.rs). */
module MediaStatusCodes {
  import opened Common

  /** Every non-zero status the NDK names, except `AMEDIA_ERROR_BASE`, which has
      the same value (-10000) as `AMEDIA_ERROR_UNKNOWN` and so no variant. */
  datatype NonZeroSysMediaStatus =
    | CodecErrorInsufficientResource
    | CodecErrorReclaimed
    | ErrorUnknown
    | ErrorMalformed
    | ErrorUnsupported
    | ErrorInvalidObject
    | ErrorInvalidParameter
    | ErrorInvalidOperation
    | ErrorEndOfStream
    | ErrorIo
    | ErrorWouldBlock
    | DrmErrorBase
    | DrmNotProvisioned
    | DrmResourceBusy
    | DrmDeviceRevoked
    | DrmShortBuffer
    | DrmSessionNotOpened
    | DrmTamperDetected
    | DrmVerifyFailed
    | DrmNeedKey
    | DrmLicenseExpired
    | ImgReaderErrorBase
    | ImgReaderNoBufferAvailable
    | ImgReaderMaxImagesAcquired
    | ImgReaderCannotLockImage
    | ImgReaderCannotUnlockImage
    | ImgReaderImageNotLocked
  {
    /** The `#[repr(i32)]` discriminant of the variant. */
    function Code(): int {
      match this
      case CodecErrorInsufficientResource => 1100
      case CodecErrorReclaimed => 1101
      case ErrorUnknown => -10000
      case ErrorMalformed => -10001
      case ErrorUnsupported => -10002
      case ErrorInvalidObject => -10003
      case ErrorInvalidParameter => -10004
      case ErrorInvalidOperation => -10005
      case ErrorEndOfStream => -10006
      case ErrorIo => -10007
      case ErrorWouldBlock => -10008
      case DrmErrorBase => -20000
      case DrmNotProvisioned => -20001
      case DrmResourceBusy => -20002
      case DrmDeviceRevoked => -20003
      case DrmShortBuffer => -20004
      case DrmSessionNotOpened => -20005
      case DrmTamperDetected => -20006
      case DrmVerifyFailed => -20007
      case DrmNeedKey => -20008
      case DrmLicenseExpired => -20009
      case ImgReaderErrorBase => -30000
      case ImgReaderNoBufferAvailable => -30001
      case ImgReaderMaxImagesAcquired => -30002
      case ImgReaderCannotLockImage => -30003
      case ImgReaderCannotUnlockImage => -30004
      case ImgReaderImageNotLocked => -30005
    }
  }

  const AMEDIA_OK: int := 0
  /** `AMEDIA_ERROR_BASE`, an alias of `AMEDIA_ERROR_UNKNOWN`. */
  const AMEDIA_ERROR_BASE: int := -10000

  /** The codes the NDK names (other than `AMEDIA_OK`). */
  predicate IsListedCode(x: int) {
    x in {1100, 1101,
          -10000, -10001, -10002, -10003, -10004, -10005, -10006, -10007, -10008,
          -20000, -20001, -20002, -20003, -20004, -20005, -20006, -20007, -20008, -20009,
          -30000, -30001, -30002, -30003, -30004, -30005}
  }

  /** Errors of the media layer. Only `Sys` arises from a status code. */
  datatype MediaStatus =
    | Sys(status: NonZeroSysMediaStatus)
    | AllocationError
    | StringNulError
    | MediaCodecCreationFailed
    | NoAvailableBuffer

  /** `TryFrom<media_status_t> for NonZeroSysMediaStatus`. */
  function TryFromStatus(value: int): (r: Result<NonZeroSysMediaStatus, ()>)
    ensures r.Err? <==> value == AMEDIA_OK
    ensures IsListedCode(value) ==> r == Ok(Variant(value))
    ensures r.Ok? && IsListedCode(value) ==> r.value.Code() == value
    ensures value != AMEDIA_OK && !IsListedCode(value) ==> r == Ok(ErrorUnknown)
  {
    if value == AMEDIA_OK then Err(())
    else if IsListedCode(value) then Ok(Variant(value))
    else Ok(ErrorUnknown)
  }

  /** The variant whose discriminant is a listed code. */
  function Variant(code: int): (v: NonZeroSysMediaStatus)
    requires IsListedCode(code)
    ensures v.Code() == code
  {
    match code
    case 1100 => CodecErrorInsufficientResource
    case 1101 => CodecErrorReclaimed
    case -10000 => ErrorUnknown
    case -10001 => ErrorMalformed
    case -10002 => ErrorUnsupported
    case -10003 => ErrorInvalidObject
    case -10004 => ErrorInvalidParameter
    case -10005 => ErrorInvalidOperation
    case -10006 => ErrorEndOfStream
    case -10007 => ErrorIo
    case -10008 => ErrorWouldBlock
    case -20000 => DrmErrorBase
    case -20001 => DrmNotProvisioned
    case -20002 => DrmResourceBusy
    case -20003 => DrmDeviceRevoked
    case -20004 => DrmShortBuffer
    case -20005 => DrmSessionNotOpened
    case -20006 => DrmTamperDetected
    case -20007 => DrmVerifyFailed
    case -20008 => DrmNeedKey
    case -20009 => DrmLicenseExpired
    case -30000 => ImgReaderErrorBase
    case -30001 => ImgReaderNoBufferAvailable
    case -30002 => ImgReaderMaxImagesAcquired
    case -30003 => ImgReaderCannotLockImage
    case -30004 => ImgReaderCannotUnlockImage
    case -30005 => ImgReaderImageNotLocked
  }

  /** `AsMediaStatus::success`: `Ok(())` exactly for `AMEDIA_OK`. */
  function Success(value: int): (r: Result<(), MediaStatus>)
    ensures r.Ok? <==> value == AMEDIA_OK
    ensures r.Err? ==> r.error.Sys?
    ensures r.Err? && IsListedCode(value) ==> r.error.status.Code() == value
  {
    match TryFromStatus(value)
    case Ok(n) => Err(Sys(n))
    case Err(_) => Ok(())
  }

  /** Every variant is recovered from its own discriminant, so the discriminants
      are pairwise distinct and all listed. */
  lemma CodeRoundTrip(v: NonZeroSysMediaStatus)
    ensures IsListedCode(v.Code()) && v.Code() != AMEDIA_OK
    ensures TryFromStatus(v.Code()) == Ok(v)
  {
  }

  /** `AMEDIA_ERROR_BASE` is classified as `AMEDIA_ERROR_UNKNOWN`. */
  lemma ErrorBaseIsUnknown()
    ensures TryFromStatus(AMEDIA_ERROR_BASE) == Ok(ErrorUnknown)
    ensures Success(AMEDIA_ERROR_BASE) == Err(Sys(ErrorUnknown))
  {
  }

  /** Two variants with one discriminant are the same variant. */
  lemma CodeInjective(v: NonZeroSysMediaStatus, w: NonZeroSysMediaStatus)
    ensures v.Code() == w.Code() ==> v == w
  {
    CodeRoundTrip(v);
    CodeRoundTrip(w);
  }
}
