/** `AndroidDecoderBuilder` (app/src/main/rust/src/webrtc/decoder/builder.rs):
    asks Android for a decoder and its profile ids for each video MIME type it
    knows, and collects the codecs to offer in SDP and the decoder name to use
    per MIME type. The JNI queries are parameters: `choose` stands for
    `choose_decoder_for_type`, `list` for `list_profiles_for_decoder`. */
module DecoderBuilder {
  import opened Common
  import opened Mime

  /** `H264Profile` of the external crate. */
  datatype H264Profile =
    | Baseline
    | Main
    | Extended
    | High
    | High10
    | High422
    | High444
    | ConstrainedBaseline
    | ConstrainedHigh

  /** A codec offered to the peer; only H.264 ones are ever built. */
  datatype Codec = H264(profile: H264Profile)

  datatype CodecType = Video | Audio

  /** A failed JNI call. */
  datatype JniError = JniError(code: int)

  /** The Android `MediaCodecInfo.CodecProfileLevel` constant of each profile. */
  function AndroidId(p: H264Profile): (id: int)
    ensures id > 0
  {
    match p
    case Baseline => 1
    case Main => 2
    case Extended => 4
    case High => 8
    case High10 => 16
    case High422 => 32
    case High444 => 64
    case ConstrainedBaseline => 65536
    case ConstrainedHigh => 524288
  }

  /** `h264_profile_from_android_id`: the nine known ids, `None` for the rest. */
  function ProfileFromAndroidId(id: int): (p: Option<H264Profile>)
    ensures p.Some? <==> id in {1, 2, 4, 8, 16, 32, 64, 65536, 524288}
    ensures p.Some? ==> AndroidId(p.value) == id
  {
    match id
    case 1 => Some(Baseline)
    case 2 => Some(Main)
    case 4 => Some(Extended)
    case 8 => Some(High)
    case 16 => Some(High10)
    case 32 => Some(High422)
    case 64 => Some(High444)
    case 65536 => Some(ConstrainedBaseline)
    case 524288 => Some(ConstrainedHigh)
    case _ => None
  }

  /** Every profile is recognised from its own id. */
  lemma ProfileIdRoundTrip(p: H264Profile)
    ensures ProfileFromAndroidId(AndroidId(p)) == Some(p)
  {
  }

  /** Different accepted ids give different profiles. */
  lemma ProfileFromAndroidIdInjective(a: int, b: int)
    requires ProfileFromAndroidId(a).Some? && ProfileFromAndroidId(a) == ProfileFromAndroidId(b)
    ensures a == b
  {
  }

  /** The converter paired with a MIME type: AV1 and H.265 convert nothing. */
  datatype Converter = NoCodecs | H264Converter

  function Convert(c: Converter, id: int): (r: Option<Codec>)
    ensures r.Some? <==> c == H264Converter && ProfileFromAndroidId(id).Some?
    ensures r.Some? ==> AndroidId(r.value.profile) == id
  {
    match c
    case NoCodecs => None
    case H264Converter =>
      match ProfileFromAndroidId(id)
      case Some(p) => Some(H264(p))
      case None => None
  }

  /** The codecs the profile ids convert to, in the ids' order. */
  function Converted(c: Converter, ids: seq<int>): seq<Codec>
    decreases |ids|
  {
    if ids == [] then []
    else
      var last := Convert(c, ids[|ids| - 1]);
      Converted(c, ids[..|ids| - 1]) + (if last.Some? then [last.value] else [])
  }

  /** AV1 and H.265 contribute no codecs. */
  lemma {:induction false} NoCodecsConvertNothing(ids: seq<int>)
    ensures Converted(NoCodecs, ids) == []
    decreases |ids|
  {
    if ids != [] {
      NoCodecsConvertNothing(ids[..|ids| - 1]);
    }
  }

  /** An H.264 profile is offered exactly when the decoder lists its id. */
  lemma {:induction false} ConvertedOffersListed(ids: seq<int>, p: H264Profile)
    ensures H264(p) in Converted(H264Converter, ids) <==> AndroidId(p) in ids
    decreases |ids|
  {
    if ids != [] {
      var init := ids[..|ids| - 1];
      ConvertedOffersListed(init, p);
      ProfileIdRoundTrip(p);
      assert ids == init + [ids[|ids| - 1]];
    }
  }

  /** There are never more codecs than profile ids, and one per id when every
      id is recognised. */
  lemma {:induction false} ConvertedCount(ids: seq<int>)
    ensures |Converted(H264Converter, ids)| <= |ids|
    ensures (forall k :: 0 <= k < |ids| ==> ProfileFromAndroidId(ids[k]).Some?) ==>
      |Converted(H264Converter, ids)| == |ids|
    decreases |ids|
  {
    if ids != [] {
      ConvertedCount(ids[..|ids| - 1]);
    }
  }

  /** `mime_types`, in the order the loop visits them. */
  const MIME_TYPES: seq<(MimeType, Converter)> :=
    [(VideoAv1, NoCodecs), (VideoH265, NoCodecs), (VideoH264, H264Converter)]

  /** The decoder name and profile ids found for a MIME type; `None` when
      either query fails or finds nothing, which skips the type. */
  function Lookup(choose: MimeType -> Result<Option<seq<char>>, JniError>,
                  list: (seq<char>, MimeType) -> Result<Option<seq<int>>, JniError>,
                  m: MimeType): (r: Option<(seq<char>, seq<int>)>)
    ensures r.Some? <==>
      choose(m).Ok? && choose(m).value.Some? &&
      list(choose(m).value.value, m).Ok? && list(choose(m).value.value, m).value.Some?
    ensures r.Some? ==>
      r.value.0 == choose(m).value.value && r.value.1 == list(r.value.0, m).value.value
  {
    match choose(m)
    case Err(_) => None
    case Ok(None) => None
    case Ok(Some(name)) =>
      match list(name, m)
      case Err(_) => None
      case Ok(None) => None
      case Ok(Some(ids)) => Some((name, ids))
  }

  /** The loop over `entries`: the codecs and the codec map it leaves. */
  function Gather(entries: seq<(MimeType, Converter)>,
                  choose: MimeType -> Result<Option<seq<char>>, JniError>,
                  list: (seq<char>, MimeType) -> Result<Option<seq<int>>, JniError>)
    : (seq<Codec>, map<MimeType, seq<char>>)
    decreases |entries|
  {
    if entries == [] then ([], map[])
    else
      var before := Gather(entries[..|entries| - 1], choose, list);
      var (m, c) := entries[|entries| - 1];
      match Lookup(choose, list, m)
      case None => before
      case Some((name, ids)) => (before.0 + Converted(c, ids), before.1[m := name])
  }

  /** A MIME type has a decoder in the map exactly when both queries found
      something for it, and the decoder is the one found; of the codecs, only
      the H.264 ones are offered. AV1 and H.265 still get their map entry. */
  lemma GatherMimeTypes(choose: MimeType -> Result<Option<seq<char>>, JniError>,
                        list: (seq<char>, MimeType) -> Result<Option<seq<int>>, JniError>)
    ensures var (codecs, codecMap) := Gather(MIME_TYPES, choose, list);
      (forall m :: m in codecMap <==> m in {VideoAv1, VideoH265, VideoH264} && Lookup(choose, list, m).Some?) &&
      (forall m :: m in codecMap ==> codecMap[m] == Lookup(choose, list, m).value.0) &&
      codecs == (if Lookup(choose, list, VideoH264).Some?
                 then Converted(H264Converter, Lookup(choose, list, VideoH264).value.1) else [])
  {
    var s1 := [(VideoAv1, NoCodecs)];
    var s2 := s1 + [(VideoH265, NoCodecs)];
    assert s1[..0] == [] && s2[..1] == s1 && MIME_TYPES[..2] == s2;
    var g1 := Gather(s1, choose, list);
    var g2 := Gather(s2, choose, list);
    if Lookup(choose, list, VideoAv1).Some? {
      NoCodecsConvertNothing(Lookup(choose, list, VideoAv1).value.1);
    }
    assert g1.0 == [] && (forall m :: m in g1.1 <==> m == VideoAv1 && Lookup(choose, list, m).Some?);
    if Lookup(choose, list, VideoH265).Some? {
      NoCodecsConvertNothing(Lookup(choose, list, VideoH265).value.1);
    }
    assert g2.0 == [];
    assert forall m :: m in g2.1 <==> m in {VideoAv1, VideoH265} && Lookup(choose, list, m).Some?;
  }

  /** The builder as `new` leaves it. */
  datatype AndroidDecoderBuilder = AndroidDecoderBuilder(codecs: seq<Codec>, codecMap: map<MimeType, seq<char>>)
  {
    /** `codec_type`. */
    function CodecKind(): (t: CodecType)
      ensures t.Video?
    {
      Video
    }
  }

  /** The loop of `new` over `mime_types`. */
  method GatherCodecs(choose: MimeType -> Result<Option<seq<char>>, JniError>,
                      list: (seq<char>, MimeType) -> Result<Option<seq<int>>, JniError>)
    returns (codecs: seq<Codec>, codecMap: map<MimeType, seq<char>>)
    ensures (codecs, codecMap) == Gather(MIME_TYPES, choose, list)
  {
    codecs, codecMap := [], map[];
    for i := 0 to |MIME_TYPES|
      invariant (codecs, codecMap) == Gather(MIME_TYPES[..i], choose, list)
    {
      assert MIME_TYPES[..i + 1][..i] == MIME_TYPES[..i];
      var (mimeType, converter) := MIME_TYPES[i];
      var decoderName: seq<char>;
      match choose(mimeType) {
        case Ok(Some(name)) => decoderName := name;
        case Ok(None) => continue;
        case Err(_) => continue;
      }
      var profiles: seq<int>;
      match list(decoderName, mimeType) {
        case Ok(Some(ids)) => profiles := ids;
        case Ok(None) => continue;
        case Err(_) => continue;
      }
      ghost var start := codecs;
      for j := 0 to |profiles|
        invariant codecs == start + Converted(converter, profiles[..j])
      {
        assert profiles[..j + 1][..j] == profiles[..j];
        var codec := Convert(converter, profiles[j]);
        if codec.Some? {
          codecs := codecs + [codec.value];
        }
      }
      assert profiles[..|profiles|] == profiles;
      codecMap := codecMap[mimeType := decoderName];
    }
    assert MIME_TYPES[..|MIME_TYPES|] == MIME_TYPES;
  }

  /** `AndroidDecoderBuilder::new`: only attaching the thread can fail; a MIME
      type whose queries fail is skipped. */
  method New(attachOk: bool,
             choose: MimeType -> Result<Option<seq<char>>, JniError>,
             list: (seq<char>, MimeType) -> Result<Option<seq<int>>, JniError>,
             attachError: JniError)
    returns (r: Result<AndroidDecoderBuilder, JniError>)
    ensures !attachOk ==> r == Err(attachError)
    ensures attachOk ==> r.Ok? && (r.value.codecs, r.value.codecMap) == Gather(MIME_TYPES, choose, list)
  {
    if !attachOk {
      return Err(attachError);
    }
    var codecs, codecMap := GatherCodecs(choose, list);
    return Ok(AndroidDecoderBuilder(codecs, codecMap));
  }
}
