/** The older `AndroidDecoderBuilder` (app/src/main/rust/src/webrtc/decoder.rs):
    it asks only for "video/avc", and any failing JNI call aborts `new`. Its
    `h264_profile_from_android_id` (lines 83-99) is the same table as
    `DecoderBuilder.ProfileFromAndroidId`. `choose` stands for
    `choose_decoder_for_type` and `list` for `list_profile_levels_for_decoder`. */
module LegacyDecoderBuilder {
  import opened Common
  import opened Mime
  import opened DecoderBuilder

  /** `mime_types`: the other two names are commented out in the source. */
  const LEGACY_MIME_TYPES: seq<seq<char>> := ["video/avc"]

  /** What `new` returns: the codecs for the decoder's profile ids, or the
      first JNI error. */
  function LegacyNewSpec(attachOk: bool, attachError: JniError,
                         choose: seq<char> -> Result<seq<char>, JniError>,
                         list: (seq<char>, seq<char>) -> Result<seq<int>, JniError>)
    : (r: Result<seq<Codec>, JniError>)
    ensures !attachOk ==> r == Err(attachError)
    ensures attachOk && choose("video/avc").Err? ==> r == Err(choose("video/avc").error)
  {
    if !attachOk then Err(attachError)
    else match choose("video/avc")
      case Err(e) => Err(e)
      case Ok(name) =>
        match list(name, "video/avc")
        case Err(e) => Err(e)
        case Ok(ids) => Ok(Converted(H264Converter, ids))
  }

  /** `AndroidDecoderBuilder::new` of the older file. */
  method LegacyNew(attachOk: bool, attachError: JniError,
                   choose: seq<char> -> Result<seq<char>, JniError>,
                   list: (seq<char>, seq<char>) -> Result<seq<int>, JniError>)
    returns (r: Result<seq<Codec>, JniError>)
    ensures r == LegacyNewSpec(attachOk, attachError, choose, list)
  {
    if !attachOk {
      return Err(attachError);
    }
    var codecs: seq<Codec> := [];
    assert |LEGACY_MIME_TYPES| == 1;
    for i := 0 to |LEGACY_MIME_TYPES|
      invariant i == 0 ==> codecs == []
      invariant i == 1 ==> LegacyNewSpec(attachOk, attachError, choose, list) == Ok(codecs)
    {
      var mimeType := LEGACY_MIME_TYPES[i];
      var decoderName: seq<char>;
      match choose(mimeType) {
        case Err(e) => return Err(e);
        case Ok(name) => decoderName := name;
      }
      var profiles: seq<int>;
      match list(decoderName, mimeType) {
        case Err(e) => return Err(e);
        case Ok(ids) => profiles := ids;
      }
      for j := 0 to |profiles|
        invariant codecs == Converted(H264Converter, profiles[..j])
      {
        assert profiles[..j + 1][..j] == profiles[..j];
        var profile := ProfileFromAndroidId(profiles[j]);
        if profile.Some? {
          codecs := codecs + [H264(profile.value)];
        }
      }
      assert profiles[..|profiles|] == profiles;
    }
    return Ok(codecs);
  }

  /** Every profile offered is one whose id the decoder lists, and each listed
      known id is offered. */
  lemma LegacyOffersListed(attachOk: bool, attachError: JniError,
                           choose: seq<char> -> Result<seq<char>, JniError>,
                           list: (seq<char>, seq<char>) -> Result<seq<int>, JniError>,
                           p: H264Profile)
    requires LegacyNewSpec(attachOk, attachError, choose, list).Ok?
    ensures var ids := list(choose("video/avc").value, "video/avc").value;
      H264(p) in LegacyNewSpec(attachOk, attachError, choose, list).value <==> AndroidId(p) in ids
  {
    ConvertedOffersListed(list(choose("video/avc").value, "video/avc").value, p);
  }

  /** When both builders get the same decoder and profile ids for H.264, they
      offer the same codecs: the newer one's AV1 and H.265 entries add none. */
  lemma LegacyAgreesWithBuilder(attachError: JniError,
                                choose: seq<char> -> Result<seq<char>, JniError>,
                                list: (seq<char>, seq<char>) -> Result<seq<int>, JniError>,
                                chooseFor: MimeType -> Result<Option<seq<char>>, JniError>,
                                listFor: (seq<char>, MimeType) -> Result<Option<seq<int>>, JniError>)
    requires choose("video/avc").Ok? && list(choose("video/avc").value, "video/avc").Ok?
    requires chooseFor(VideoH264) == Ok(Some(choose("video/avc").value))
    requires listFor(choose("video/avc").value, VideoH264) == Ok(Some(list(choose("video/avc").value, "video/avc").value))
    ensures LegacyNewSpec(true, attachError, choose, list) == Ok(Gather(MIME_TYPES, chooseFor, listFor).0)
  {
    GatherMimeTypes(chooseFor, listFor);
  }
}
