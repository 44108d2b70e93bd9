/** MIME types of the media layer and their two spellings: the one Android's
    codec API understands and the one SDP negotiates
    (app/src/main/rust/src/media/mime.rs). */
module Mime {
  import opened Common

  datatype MimeType =
    | AudioPcma
    | AudioPcmu
    | AudioOpus
    | VideoAv1
    | VideoH264
    | VideoH265
    | VideoVp8

  /** `to_nul_terminated_rust_str`: the Android name with a trailing NUL. */
  function NulTerminated(m: MimeType): seq<char> {
    match m
    case AudioPcma => "audio/g711-alaw\0"
    case AudioPcmu => "audio/g711-mlaw\0"
    case AudioOpus => "audio/opus\0"
    case VideoAv1 => "video/av01\0"
    case VideoH264 => "video/avc\0"
    case VideoH265 => "video/hevc\0"
    case VideoVp8 => "video/x-vnd.on2.vp8\0"
  }

  /** `str::trim_end_matches('\0')`: drops every trailing NUL. */
  function TrimEndNul(s: seq<char>): (r: seq<char>)
    ensures |r| <= |s| && r == s[..|r|]
    ensures r == [] || r[|r| - 1] != '\0'
    ensures forall k :: |r| <= k < |s| ==> s[k] == '\0'
    decreases |s|
  {
    if |s| > 0 && s[|s| - 1] == '\0' then TrimEndNul(s[..|s| - 1]) else s
  }

  /** `to_android_str`. */
  function ToAndroidStr(m: MimeType): (r: seq<char>)
    ensures r + "\0" == NulTerminated(m)
    ensures r == NulTerminated(m)[..|NulTerminated(m)| - 1]
    ensures '\0' !in r
  {
    NulTerminatedShape(m);
    TrimOneNul(NulTerminated(m));
    TrimEndNul(NulTerminated(m))
  }

  /** Each table entry is a NUL-free name followed by exactly one NUL. */
  lemma NulTerminatedShape(m: MimeType)
    ensures |NulTerminated(m)| >= 2 && NulTerminated(m)[|NulTerminated(m)| - 1] == '\0'
    ensures '\0' !in NulTerminated(m)[..|NulTerminated(m)| - 1]
  {
    var s := NulTerminated(m);
    forall k | 0 <= k < |s| - 1 ensures s[k] != '\0' {
      match m
      case AudioPcma =>
      case AudioPcmu =>
      case AudioOpus =>
      case VideoAv1 =>
      case VideoH264 =>
      case VideoH265 =>
      case VideoVp8 =>
    }
  }

  /** Trimming a string that ends in exactly one NUL removes that NUL. */
  lemma TrimOneNul(s: seq<char>)
    requires |s| >= 2 && s[|s| - 1] == '\0' && s[|s| - 2] != '\0'
    ensures TrimEndNul(s) == s[..|s| - 1]
  {
  }

  /** The Android names of the three video codecs the decoder handles. */
  lemma VideoAndroidNames()
    ensures ToAndroidStr(VideoAv1) == "video/av01"
    ensures ToAndroidStr(VideoH264) == "video/avc"
    ensures ToAndroidStr(VideoH265) == "video/hevc"
  {
    DropTrailingNul(ToAndroidStr(VideoAv1), "video/av01");
    DropTrailingNul(ToAndroidStr(VideoH264), "video/avc");
    DropTrailingNul(ToAndroidStr(VideoH265), "video/hevc");
  }

  lemma DropTrailingNul(a: seq<char>, b: seq<char>)
    requires a + "\0" == b + "\0"
    ensures a == b
  {
    assert a == (a + "\0")[..|a|];
    assert b == (b + "\0")[..|b|];
  }

  /** `to_sdp_str`. */
  function ToSdpStr(m: MimeType): seq<char> {
    match m
    case AudioPcma => "audio/PCMA"
    case AudioPcmu => "audio/PCMU"
    case AudioOpus => "audio/opus"
    case VideoAv1 => "video/AV1"
    case VideoH264 => "video/H264"
    case VideoH265 => "video/H265"
    case VideoVp8 => "video/VP8"
  }

  /** `u8::to_ascii_lowercase` on one character: only `A`..`Z` change. */
  function AsciiLower(c: char): char {
    if 'A' <= c <= 'Z' then (c as int + 32) as char else c
  }

  function Lower(s: seq<char>): (r: seq<char>)
    ensures |r| == |s|
    ensures forall k :: 0 <= k < |s| ==> r[k] == AsciiLower(s[k])
  {
    seq(|s|, k requires 0 <= k < |s| => AsciiLower(s[k]))
  }

  /** `str::eq_ignore_ascii_case`. Rust compares UTF-8 bytes and lowers only
      ASCII bytes, which never occur inside a multi-byte character, so comparing
      lowered characters is the same relation. */
  predicate EqIgnoreAsciiCase(a: seq<char>, b: seq<char>) {
    Lower(a) == Lower(b)
  }

  /** `s` is one of the two accepted spellings of `m`, ignoring ASCII case. */
  predicate Spells(s: seq<char>, m: MimeType) {
    EqIgnoreAsciiCase(s, ToAndroidStr(m)) || EqIgnoreAsciiCase(s, ToSdpStr(m))
  }

  /** `FromStr for MimeType`: tries the types in declaration order. */
  function FromStr(s: seq<char>): (r: Result<MimeType, ()>)
    ensures forall m :: r == Ok(m) <==> Spells(s, m)
    ensures r.Err? <==> forall m :: !Spells(s, m)
  {
    SpellingsDistinct();
    if Spells(s, AudioPcma) then Ok(AudioPcma)
    else if Spells(s, AudioPcmu) then Ok(AudioPcmu)
    else if Spells(s, AudioOpus) then Ok(AudioOpus)
    else if Spells(s, VideoAv1) then Ok(VideoAv1)
    else if Spells(s, VideoH264) then Ok(VideoH264)
    else if Spells(s, VideoH265) then Ok(VideoH265)
    else if Spells(s, VideoVp8) then Ok(VideoVp8)
    else Err(())
  }

  /** The ASCII-lowered spellings, written out. */
  function LoweredSpellings(m: MimeType): (seq<char>, seq<char>) {
    match m
    case AudioPcma => ("audio/g711-alaw", "audio/pcma")
    case AudioPcmu => ("audio/g711-mlaw", "audio/pcmu")
    case AudioOpus => ("audio/opus", "audio/opus")
    case VideoAv1 => ("video/av01", "video/av1")
    case VideoH264 => ("video/avc", "video/h264")
    case VideoH265 => ("video/hevc", "video/h265")
    case VideoVp8 => ("video/x-vnd.on2.vp8", "video/vp8")
  }

  lemma LoweredSpellingsAgree(m: MimeType)
    ensures Lower(ToAndroidStr(m)) == LoweredSpellings(m).0
    ensures Lower(ToSdpStr(m)) == LoweredSpellings(m).1
  {
    LoweredAndroid(m);
    LoweredSdp(m);
  }

  lemma LoweredAndroid(m: MimeType)
    ensures Lower(ToAndroidStr(m)) == LoweredSpellings(m).0
  {
    var a := ToAndroidStr(m);
    var l := LoweredSpellings(m).0;
    LoweredTable(m);
    assert forall k :: 0 <= k < |a| ==> a[k] == NulTerminated(m)[k];
  }

  /** The NUL-terminated table entry, lowered character by character, is the
      lowered spelling followed by the NUL. */
  lemma LoweredTable(m: MimeType)
    ensures |NulTerminated(m)| == |LoweredSpellings(m).0| + 1
    ensures forall k :: 0 <= k < |LoweredSpellings(m).0| ==>
      AsciiLower(NulTerminated(m)[k]) == LoweredSpellings(m).0[k]
  {
    match m
    case AudioPcma =>
    case AudioPcmu =>
    case AudioOpus =>
    case VideoAv1 =>
    case VideoH264 =>
    case VideoH265 =>
    case VideoVp8 =>
  }

  lemma LoweredSdp(m: MimeType)
    ensures Lower(ToSdpStr(m)) == LoweredSpellings(m).1
  {
    match m
    case AudioPcma =>
    case AudioPcmu =>
    case AudioOpus =>
    case VideoAv1 =>
    case VideoH264 =>
    case VideoH265 =>
    case VideoVp8 =>
  }

  /** Tells the fourteen lowered spellings apart by length, last character and
      twelfth character. */
  function Classify(l: seq<char>): Option<MimeType> {
    if |l| == 15 && l[11] == 'a' then Some(AudioPcma)
    else if |l| == 15 && l[11] == 'm' then Some(AudioPcmu)
    else if |l| == 19 then Some(VideoVp8)
    else if |l| == 0 then None
    else match l[|l| - 1]
      case 's' => Some(AudioOpus)
      case 'a' => Some(AudioPcma)
      case 'u' => Some(AudioPcmu)
      case '1' => Some(VideoAv1)
      case 'c' => if |l| == 9 then Some(VideoH264) else Some(VideoH265)
      case '4' => Some(VideoH264)
      case '5' => Some(VideoH265)
      case '8' => Some(VideoVp8)
      case _ => None
  }

  /** A string that spells `m` is classified as `m`. */
  lemma SpellsClassified(s: seq<char>, m: MimeType)
    requires Spells(s, m)
    ensures Classify(Lower(s)) == Some(m)
  {
    LoweredSpellingsAgree(m);
    LoweredSpellingsClassified(m);
    if EqIgnoreAsciiCase(s, ToAndroidStr(m)) {
      assert Lower(s) == LoweredSpellings(m).0;
    } else {
      assert Lower(s) == LoweredSpellings(m).1;
    }
  }

  /** Both lowered spellings of each type are classified as that type. */
  lemma LoweredSpellingsClassified(m: MimeType)
    ensures Classify(LoweredSpellings(m).0) == Some(m)
    ensures Classify(LoweredSpellings(m).1) == Some(m)
  {
    match m
    case AudioPcma =>
    case AudioPcmu =>
    case AudioOpus =>
    case VideoAv1 =>
    case VideoH264 =>
    case VideoH265 =>
    case VideoVp8 =>
  }

  /** No string spells two different types. */
  lemma SpellingsDistinct()
    ensures forall s, m1, m2 :: Spells(s, m1) && Spells(s, m2) ==> m1 == m2
  {
    forall s, m1, m2 | Spells(s, m1) && Spells(s, m2) ensures m1 == m2 {
      SpellsClassified(s, m1);
      SpellsClassified(s, m2);
    }
  }

  /** Android name round trip: `from_str(to_android_str(m)) == Ok(m)`. */
  lemma AndroidStrRoundTrip(m: MimeType)
    ensures FromStr(ToAndroidStr(m)) == Ok(m)
  {
  }

  /** SDP name round trip: `from_str(to_sdp_str(m)) == Ok(m)`. */
  lemma SdpStrRoundTrip(m: MimeType)
    ensures FromStr(ToSdpStr(m)) == Ok(m)
  {
  }

  /** Parsing ignores ASCII case. */
  lemma FromStrIgnoresAsciiCase(s: seq<char>, t: seq<char>)
    requires EqIgnoreAsciiCase(s, t)
    ensures FromStr(s) == FromStr(t)
  {
    forall m ensures Spells(s, m) <==> Spells(t, m) {
      assert Lower(s) == Lower(t);
    }
    var r := FromStr(s);
    if r.Ok? {
      assert Spells(t, r.value);
    }
  }
}
