/** The media-format helper of the prototype native activity
    (src/media_format.rs): its own Annex B scanner, which only knows the
    four-byte start code, the SPS/PPS classification of a NAL unit and the
    validation of the codec specific data handed to `create_video_format`. */
module PrototypeFormat {
  import opened Common
  import opened AnnexB
  import Mime
  import VideoFormat

  /** `nal_boundaries` of the prototype: a boundary is recorded only when a `0x01`
      follows exactly three zeros. */
  method NalBoundariesExactThree(data: seq<byte>) returns (boundaries: seq<nat>)
    ensures boundaries == StartCodes(data, ExactlyThreeZeros)
  {
    boundaries := [];
    var zeroes: nat := 0;
    var i := 0;
    while i < |data|
      invariant zeroes <= i <= |data|
      invariant forall k :: i - zeroes <= k < i ==> data[k] == 0
      invariant i - zeroes == 0 || data[i - zeroes - 1] != 0
      invariant boundaries == StartCodesBelow(data, i - zeroes, ExactlyThreeZeros)
    {
      match data[i] {
        case 0 =>
          zeroes := zeroes + 1;
        case 1 =>
          RunEndedStep(data, i - zeroes, i, ExactlyThreeZeros);
          if zeroes == 3 {
            boundaries := boundaries + [i - 3];
          }
          zeroes := 0;
        case _ =>
          RunEndedStep(data, i - zeroes, i, ExactlyThreeZeros);
          zeroes := 0;
      }
      i := i + 1;
    }
    TrailingZerosNoStartCode(data, |data| - zeroes, ExactlyThreeZeros);
  }

  /** The prototype's `H264Csd`: which parameter set a NAL unit carries. */
  datatype CsdKind = Sps | Pps

  /** `H264Csd::get_nal_unit_type`: byte 4 of a NAL unit with its start code is the
      NAL header. */
  function NalKind(data: seq<byte>): (r: Option<CsdKind>)
    ensures r == Some(Sps) <==> |data| > 4 && NalUnitType(data[4]) == NAL_TYPE_SPS
    ensures r == Some(Pps) <==> |data| > 4 && NalUnitType(data[4]) == NAL_TYPE_PPS
    ensures r.None? <==> |data| <= 4 || NalUnitType(data[4]) !in {NAL_TYPE_SPS, NAL_TYPE_PPS}
  {
    if |data| <= 4 then None
    else if NalUnitType(data[4]) == NAL_TYPE_SPS then Some(Sps)
    else if NalUnitType(data[4]) == NAL_TYPE_PPS then Some(Pps)
    else None
  }

  /** The format key `set_h264_csd` stores a parameter set under. */
  function CsdKey(k: CsdKind): (r: seq<char>)
    ensures k == Sps ==> r == VideoFormat.MEDIAFORMAT_KEY_CSD_0
    ensures k == Pps ==> r == VideoFormat.MEDIAFORMAT_KEY_CSD_1
  {
    match k
    case Sps => "csd-0\0"
    case Pps => "csd-1\0"
  }

  /** The two kinds are stored under different keys. */
  lemma CsdKeysDistinct()
    ensures CsdKey(Sps) != CsdKey(Pps)
  {
    assert CsdKey(Sps)[4] != CsdKey(Pps)[4];
  }

  datatype VideoType = H264 | Hevc

  /** `VideoType::mime_cstr`: the Android MIME name with its NUL terminator. */
  function MimeCstr(t: VideoType): (r: seq<char>)
    ensures t == H264 ==> r == Mime.NulTerminated(Mime.VideoH264)
    ensures t == Hevc ==> r == Mime.NulTerminated(Mime.VideoH265)
  {
    match t
    case H264 => "video/avc\0"
    case Hevc => "video/hevc\0"
  }

  /** Read as a C string, the prototype's MIME name is the one the current code
      hands to the codec for the same video type. */
  lemma MimeCstrAgreesWithCurrent(t: VideoType)
    ensures VideoFormat.CStr(MimeCstr(t)) ==
      VideoFormat.VideoMimeType(if t == H264 then VideoFormat.H264 else VideoFormat.Hevc)
  {
    var m := if t == H264 then Mime.VideoH264 else Mime.VideoH265;
    VideoFormat.CStrOfTerminated(Mime.ToAndroidStr(m));
  }

  /** The settings of the `AMediaFormat` that `create_video_format` fills in:
      MIME name, width, height, frame rate and the byte buffers by key. */
  datatype Format = Format(mime: seq<char>, width: int, height: int, frameRate: int,
                           buffers: map<seq<char>, seq<byte>>)

  const NULL_FORMAT_MESSAGE: seq<char> := "AMediaFormat_new returned a null"
  const INVALID_CSD_MESSAGE: seq<char> := "Invalid SPS/PPS data"

  /** `MediaFormat::create_video_format`. `created` is whether `AMediaFormat_new`
      returned a format. The HEVC arm is `todo!()`, hence the precondition. */
  function CreateVideoFormat(t: VideoType, width: int, height: int, frameRate: int,
                             csd: seq<byte>, created: bool): (r: Result<Format, seq<char>>)
    requires t == H264 || !created
    ensures r.Err? ==> r.error == NULL_FORMAT_MESSAGE || r.error == INVALID_CSD_MESSAGE
    ensures r.Err? ==> (r.error == NULL_FORMAT_MESSAGE <==> !created)
    ensures r.Ok? ==>
      created && r.value.mime == MimeCstr(t) &&
      r.value.buffers.Keys == {VideoFormat.MEDIAFORMAT_KEY_CSD_0, VideoFormat.MEDIAFORMAT_KEY_CSD_1}
  {
    if !created then Err(NULL_FORMAT_MESSAGE)
    else
      var bs := StartCodes(csd, ExactlyThreeZeros);
      if |bs| == 2 && bs[0] <= bs[1] <= |csd| then      // `csd.get(..)` of both segments
        var first := csd[bs[0]..bs[1]];
        var second := csd[bs[1]..];
        var k0 := NalKind(first);
        var k1 := NalKind(second);
        if k0.Some? && k1.Some? && k0 != k1 then
          Ok(Format(MimeCstr(t), width, height, frameRate,
                    map[CsdKey(k0.value) := first][CsdKey(k1.value) := second]))
        else Err(INVALID_CSD_MESSAGE)
      else Err(INVALID_CSD_MESSAGE)
  }

  /** A segment that starts at a boundary of the exact-three rule begins with the
      four-byte start code. */
  lemma SegmentStartsWithStartCode(csd: seq<byte>, b: nat, j: nat)
    requires IsStartCode(csd, b, ExactlyThreeZeros)
    requires b + 4 <= j <= |csd|
    ensures csd[b..j][..4] == START_CODE
  {
    var e := ZeroRunEnd(csd, b);
    assert e == b + 3;
  }

  /** An accepted configuration: exactly two boundaries, the SPS segment stored
      under `csd-0` and the PPS segment under `csd-1`, each a slice of the data
      that starts with the four-byte start code, and nothing else stored; the
      MIME name and the three integers are the ones given. */
  lemma CreateVideoFormatSound(t: VideoType, width: int, height: int, frameRate: int,
                               csd: seq<byte>, created: bool)
    requires t == H264 || !created
    ensures var r := CreateVideoFormat(t, width, height, frameRate, csd, created);
      r.Ok? ==>
        created &&
        r.value.mime == MimeCstr(t) && r.value.width == width &&
        r.value.height == height && r.value.frameRate == frameRate &&
        var bs := StartCodes(csd, ExactlyThreeZeros);
        |bs| == 2 && bs[0] < bs[1] &&
        r.value.buffers.Keys == {VideoFormat.MEDIAFORMAT_KEY_CSD_0, VideoFormat.MEDIAFORMAT_KEY_CSD_1} &&
        var sps := r.value.buffers[VideoFormat.MEDIAFORMAT_KEY_CSD_0];
        var pps := r.value.buffers[VideoFormat.MEDIAFORMAT_KEY_CSD_1];
        |sps| > 4 && NalUnitType(sps[4]) == NAL_TYPE_SPS && sps[..4] == START_CODE &&
        |pps| > 4 && NalUnitType(pps[4]) == NAL_TYPE_PPS && pps[..4] == START_CODE &&
        ((sps == csd[bs[0]..bs[1]] && pps == csd[bs[1]..]) ||
         (pps == csd[bs[0]..bs[1]] && sps == csd[bs[1]..]))
  {
    var r := CreateVideoFormat(t, width, height, frameRate, csd, created);
    if r.Ok? {
      var bs := StartCodes(csd, ExactlyThreeZeros);
      StartCodesExact(csd, ExactlyThreeZeros);
      assert bs[0] in bs && bs[1] in bs;
      var first := csd[bs[0]..bs[1]];
      var second := csd[bs[1]..];
      SegmentStartsWithStartCode(csd, bs[0], bs[1]);
      SegmentStartsWithStartCode(csd, bs[1], |csd|);
      CsdKeysDistinct();
    }
  }

  /** Every configuration of exactly two start-code-delimited segments, one SPS
      and one PPS in either order, is accepted once the format is created. */
  lemma CreateVideoFormatComplete(width: int, height: int, frameRate: int, csd: seq<byte>, b0: nat, b1: nat)
    requires StartCodes(csd, ExactlyThreeZeros) == [b0, b1] && b0 <= b1 <= |csd|
    requires {NalKind(csd[b0..b1]), NalKind(csd[b1..])} == {Some(Sps), Some(Pps)}
    ensures CreateVideoFormat(H264, width, height, frameRate, csd, true).Ok?
  {
    var k0, k1 := NalKind(csd[b0..b1]), NalKind(csd[b1..]);
    assert k0 in {Some(Sps), Some(Pps)} && k1 in {Some(Sps), Some(Pps)};
  }

  /** The failures: no format without allocation, and "Invalid SPS/PPS data"
      whenever the prototype scanner does not find exactly two boundaries. */
  lemma CreateVideoFormatRejects(t: VideoType, width: int, height: int, frameRate: int,
                                 csd: seq<byte>, created: bool)
    requires t == H264 || !created
    ensures !created ==>
      CreateVideoFormat(t, width, height, frameRate, csd, created) == Err(NULL_FORMAT_MESSAGE)
    ensures created && |StartCodes(csd, ExactlyThreeZeros)| != 2 ==>
      CreateVideoFormat(t, width, height, frameRate, csd, created) == Err(INVALID_CSD_MESSAGE)
  {
  }

  /** The three-byte start code `00 00 01` is no boundary for the prototype
      scanner, though the current scanner accepts it. */
  lemma ThreeByteStartCodeIgnored()
    ensures StartCodes([0, 0, 1, 0x67], ExactlyThreeZeros) == []
    ensures StartCodes([0, 0, 1, 0x67], AtLeastTwoZeros) == [0]
  {
    var data: seq<byte> := [0, 0, 1, 0x67];
    forall rule: StartCodeRule
      ensures StartCodes(data, rule) == if Accepts(rule, 2) then [0] else []
    {
      RunEndedStep(data, 0, 2, rule);
      RunEndedStep(data, 3, 3, rule);
    }
  }

  /** Four zeros before the `0x01` (a zero byte ahead of a four-byte start code)
      are no boundary for the prototype scanner either. */
  lemma FourZerosIgnored()
    ensures StartCodes([0, 0, 0, 0, 1, 0x67], ExactlyThreeZeros) == []
    ensures StartCodes([0, 0, 0, 0, 1, 0x67], AtLeastTwoZeros) == [0]
  {
    var data: seq<byte> := [0, 0, 0, 0, 1, 0x67];
    forall rule: StartCodeRule
      ensures StartCodes(data, rule) == if Accepts(rule, 4) then [0] else []
    {
      RunEndedStep(data, 0, 4, rule);
      RunEndedStep(data, 5, 5, rule);
    }
  }
}
