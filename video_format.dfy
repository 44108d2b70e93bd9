/** The video part of the media-format layer: the MIME names handed to the codec
    API, the Annex B boundary scanner and the extraction of the H.264 codec
    specific data (SPS and PPS) from a byte buffer
    (app/src/main/rust/src/media/format/video.rs and the string constants and
    `&str` MIME mapping of app/src/main/rust/src/media/format/mod.rs). */
module VideoFormat {
  import opened Common
  import opened AnnexB
  import Mime

  const AV1_MIME_TYPE: seq<char> := "video/av01\0"
  const HEVC_MIME_TYPE: seq<char> := "video/hevc\0"
  const H264_MIME_TYPE: seq<char> := "video/avc\0"
  const MEDIAFORMAT_KEY_CSD_0: seq<char> := "csd-0\0"
  const MEDIAFORMAT_KEY_CSD_1: seq<char> := "csd-1\0"

  /** `CStr::from_ptr` on a NUL-terminated constant: the characters before the
      first NUL. */
  function CStr(s: seq<char>): (r: seq<char>)
    ensures |r| <= |s| && r == s[..|r|]
    ensures '\0' !in r
    ensures |r| < |s| ==> s[|r|] == '\0'
  {
    if s == [] || s[0] == '\0' then [] else [s[0]] + CStr(s[1..])
  }

  datatype VideoType = H264 | Hevc

  /** `VideoType::mime_type`. */
  function VideoMimeType(t: VideoType): (r: seq<char>)
    ensures t == H264 ==> r == Mime.ToAndroidStr(Mime.VideoH264)
    ensures t == Hevc ==> r == Mime.ToAndroidStr(Mime.VideoH265)
  {
    match t
    case H264 => CStr(H264_MIME_TYPE)
    case Hevc => CStr(HEVC_MIME_TYPE)
  }

  /** The name a video type hands to the codec parses back to that codec's MIME
      type. */
  lemma VideoMimeTypeParses(t: VideoType)
    ensures Mime.FromStr(VideoMimeType(t)) == Ok(if t == H264 then Mime.VideoH264 else Mime.VideoH265)
  {
    Mime.AndroidStrRoundTrip(if t == H264 then Mime.VideoH264 else Mime.VideoH265);
  }

  /** `nal_boundaries`: the start of every run of at least two zeros that a `0x01`
      ends, in increasing order. */
  method NalBoundaries(data: seq<byte>) returns (boundaries: seq<nat>)
    ensures boundaries == StartCodes(data, AtLeastTwoZeros)
  {
    boundaries := [];
    var zeroes: nat := 0;
    var i := 0;
    while i < |data|
      invariant zeroes <= i <= |data|
      invariant forall k :: i - zeroes <= k < i ==> data[k] == 0
      invariant i - zeroes == 0 || data[i - zeroes - 1] != 0
      invariant boundaries == StartCodesBelow(data, i - zeroes, AtLeastTwoZeros)
    {
      if data[i] == 0 {
        zeroes := zeroes + 1;
      } else {
        RunEndedStep(data, i - zeroes, i, AtLeastTwoZeros);
        if data[i] == 1 && zeroes >= 2 {
          boundaries := boundaries + [i - zeroes];
        }
        zeroes := 0;
      }
      i := i + 1;
    }
    TrailingZerosNoStartCode(data, |data| - zeroes, AtLeastTwoZeros);
  }

  /** The codec specific data of an H.264 stream: `csd0` the SPS, `csd1` the PPS,
      each with its start code. */
  datatype H264Csd = H264Csd(csd0: seq<byte>, csd1: seq<byte>)

  /** The loop of `H264Csd::from_slice` over the windows `[bs[0], bs[1]]`,
      `[bs[1], bs[2]]`, ... with the SPS and PPS found so far. */
  function ScanWindows(data: seq<byte>, bs: seq<nat>, csd0: Option<seq<byte>>, csd1: Option<seq<byte>>): Option<H264Csd>
    decreases |bs|
  {
    if |bs| < 2 then None
    else if !(bs[0] <= bs[1] <= |data|) then None          // `data.get(i..j)?`
    else
      var nal := data[bs[0]..bs[1]];
      if |nal| <= 4 then None                               // `nal.get(4)?`
      else
        var t := NalUnitType(nal[4]);
        var c0 := if t == NAL_TYPE_SPS then Some(nal) else csd0;
        var c1 := if t == NAL_TYPE_PPS then Some(nal) else csd1;
        if c0.Some? && c1.Some? then Some(H264Csd(c0.value, c1.value))
        else ScanWindows(data, bs[1..], c0, c1)
  }

  /** The windows `from_slice` scans: the boundaries followed by the end of the data. */
  function Windows(data: seq<byte>): seq<nat> {
    StartCodes(data, AtLeastTwoZeros) + [|data|]
  }

  /** The segments between consecutive window edges. */
  function Segments(data: seq<byte>, bs: seq<nat>): (segs: seq<seq<byte>>)
    requires forall k :: 0 <= k < |bs| ==> bs[k] <= |data|
    requires forall i, j :: 0 <= i < j < |bs| ==> bs[i] <= bs[j]
    ensures |segs| == if |bs| < 2 then 0 else |bs| - 1
    ensures forall k :: 0 <= k < |segs| ==> segs[k] == data[bs[k]..bs[k + 1]]
    decreases |bs|
  {
    if |bs| < 2 then [] else [data[bs[0]..bs[1]]] + Segments(data, bs[1..])
  }

  /** The result of `H264Csd::from_slice`. */
  function FromSliceSpec(data: seq<byte>): Option<H264Csd> {
    ScanWindows(data, Windows(data), None, None)
  }

  /** `H264Csd::from_slice`. */
  method FromSlice(data: seq<byte>) returns (r: Option<H264Csd>)
    ensures r == FromSliceSpec(data)
  {
    var boundaries := NalBoundaries(data);
    boundaries := boundaries + [|data|];
    var csd0: Option<seq<byte>> := None;
    var csd1: Option<seq<byte>> := None;
    var w := 0;
    while w + 1 < |boundaries|
      invariant w < |boundaries|
      invariant FromSliceSpec(data) == ScanWindows(data, boundaries[w..], csd0, csd1)
    {
      var i, j := boundaries[w], boundaries[w + 1];
      assert boundaries[w..][1..] == boundaries[w + 1..];
      if !(i <= j <= |data|) {
        return None;
      }
      var nal := data[i..j];
      if |nal| <= 4 {
        return None;
      }
      var t := NalUnitType(nal[4]);
      if t == NAL_TYPE_SPS {
        csd0 := Some(nal);
      } else if t == NAL_TYPE_PPS {
        csd1 := Some(nal);
      }
      if csd0.Some? && csd1.Some? {
        return Some(H264Csd(csd0.value, csd1.value));
      }
      w := w + 1;
    }
    return None;
  }

  /** The window edges are within the data and increasing. */
  lemma WindowsOrdered(data: seq<byte>)
    ensures forall k :: 0 <= k < |Windows(data)| ==> Windows(data)[k] <= |data|
    ensures forall i, j :: 0 <= i < j < |Windows(data)| ==> Windows(data)[i] < Windows(data)[j]
  {
    var sc := StartCodes(data, AtLeastTwoZeros);
    StartCodesExact(data, AtLeastTwoZeros);
    forall k | 0 <= k < |sc| ensures sc[k] < |data| {
      assert sc[k] in sc;
      assert IsStartCode(data, sc[k], AtLeastTwoZeros);
    }
    var w := Windows(data);
    assert w == sc + [|data|];
    forall i, j | 0 <= i < j < |w| ensures w[i] < w[j] {
      if j < |sc| {
        assert w[i] == sc[i] && w[j] == sc[j];
      } else {
        assert w[i] == sc[i];
      }
    }
  }

  /** What a scan returns: an SPS segment as `csd0` and a PPS segment as `csd1`,
      each taken from the scanned segments or carried in. */
  lemma {:induction false} ScanWindowsSound(data: seq<byte>, bs: seq<nat>, csd0: Option<seq<byte>>, csd1: Option<seq<byte>>)
    requires forall k :: 0 <= k < |bs| ==> bs[k] <= |data|
    requires forall i, j :: 0 <= i < j < |bs| ==> bs[i] <= bs[j]
    requires csd0.Some? ==> |csd0.value| > 4 && NalUnitType(csd0.value[4]) == NAL_TYPE_SPS
    requires csd1.Some? ==> |csd1.value| > 4 && NalUnitType(csd1.value[4]) == NAL_TYPE_PPS
    ensures var r := ScanWindows(data, bs, csd0, csd1);
      r.Some? ==>
        |r.value.csd0| > 4 && NalUnitType(r.value.csd0[4]) == NAL_TYPE_SPS &&
        |r.value.csd1| > 4 && NalUnitType(r.value.csd1[4]) == NAL_TYPE_PPS &&
        (r.value.csd0 in Segments(data, bs) || Some(r.value.csd0) == csd0) &&
        (r.value.csd1 in Segments(data, bs) || Some(r.value.csd1) == csd1)
    decreases |bs|
  {
    if |bs| >= 2 && |data[bs[0]..bs[1]]| > 4 {
      var nal := data[bs[0]..bs[1]];
      var t := NalUnitType(nal[4]);
      var c0 := if t == NAL_TYPE_SPS then Some(nal) else csd0;
      var c1 := if t == NAL_TYPE_PPS then Some(nal) else csd1;
      ScanWindowsSound(data, bs[1..], c0, c1);
      assert Segments(data, bs) == [nal] + Segments(data, bs[1..]);
    }
  }

  /** `from_slice` returns `Some` only with an SPS segment (type 7) as `csd0` and a
      PPS segment (type 8) as `csd1`, both delimited by consecutive boundaries or
      by the last boundary and the end of the data. */
  lemma FromSliceSound(data: seq<byte>)
    ensures var r := FromSliceSpec(data);
      r.Some? ==>
        WindowsAreOrdered(data) &&
        |r.value.csd0| > 4 && NalUnitType(r.value.csd0[4]) == NAL_TYPE_SPS &&
        |r.value.csd1| > 4 && NalUnitType(r.value.csd1[4]) == NAL_TYPE_PPS &&
        r.value.csd0 in Segments(data, Windows(data)) &&
        r.value.csd1 in Segments(data, Windows(data))
  {
    WindowsOrdered(data);
    ScanWindowsSound(data, Windows(data), None, None);
  }

  predicate WindowsAreOrdered(data: seq<byte>) {
    (forall k :: 0 <= k < |Windows(data)| ==> Windows(data)[k] <= |data|) &&
    (forall i, j :: 0 <= i < j < |Windows(data)| ==> Windows(data)[i] <= Windows(data)[j])
  }

  /** Data without a start code yields `None`: there is only one window edge. */
  lemma NoStartCodeNoCsd(data: seq<byte>)
    requires StartCodes(data, AtLeastTwoZeros) == []
    ensures FromSliceSpec(data) == None
  {
  }

  /** A segment long enough to carry a type, of type `t`. */
  predicate IsOfType(seg: seq<byte>, t: int) {
    |seg| > 4 && NalUnitType(seg[4]) == t
  }

  /** The last segment of type `t`, if any. */
  function LastOfType(segs: seq<seq<byte>>, t: int): Option<seq<byte>>
    decreases |segs|
  {
    if segs == [] then None
    else if IsOfType(segs[|segs| - 1], t) then Some(segs[|segs| - 1])
    else LastOfType(segs[..|segs| - 1], t)
  }

  /** What a scan starting from `c` holds for type `t` after `segs`: the last
      segment of that type, or `c` when there is none. */
  function Latest(c: Option<seq<byte>>, segs: seq<seq<byte>>, t: int): Option<seq<byte>> {
    if LastOfType(segs, t).Some? then LastOfType(segs, t) else c
  }

  /** Both parameter sets are known after `segs`. */
  predicate Seen(csd0: Option<seq<byte>>, csd1: Option<seq<byte>>, segs: seq<seq<byte>>) {
    Latest(csd0, segs, NAL_TYPE_SPS).Some? && Latest(csd1, segs, NAL_TYPE_PPS).Some?
  }

  /** The first `n` segments are long enough, and the `n`-th is the first after
      which both parameter sets are known. */
  predicate FirstPairAt(segs: seq<seq<byte>>, csd0: Option<seq<byte>>, csd1: Option<seq<byte>>, n: nat) {
    0 < n <= |segs| && (forall k :: 0 <= k < n ==> |segs[k]| > 4) &&
    Seen(csd0, csd1, segs[..n]) && !Seen(csd0, csd1, segs[..n - 1])
  }

  /** The last segment of a type in `[x] + xs` is the last one in `xs`, or else
      `x` if it has that type. */
  lemma {:induction false} LastOfTypeCons(x: seq<byte>, xs: seq<seq<byte>>, t: int)
    ensures LastOfType([x] + xs, t) ==
      if LastOfType(xs, t).Some? then LastOfType(xs, t) else if IsOfType(x, t) then Some(x) else None
    decreases |xs|
  {
    var ys := [x] + xs;
    if xs == [] {
      assert ys[..0] == [];
    } else {
      assert ys[|ys| - 1] == xs[|xs| - 1];
      assert ys[..|ys| - 1] == [x] + xs[..|xs| - 1];
      LastOfTypeCons(x, xs[..|xs| - 1], t);
    }
  }

  /** One segment of the scan: what it holds after `[x] + xs` is what it holds
      after `xs` once `x` is taken into account. */
  lemma LatestCons(c: Option<seq<byte>>, x: seq<byte>, xs: seq<seq<byte>>, t: int)
    ensures Latest(c, [x] + xs, t) == Latest(if IsOfType(x, t) then Some(x) else c, xs, t)
  {
    LastOfTypeCons(x, xs, t);
  }

  /** The scan of `from_slice` over the segments themselves. */
  function ScanSegments(segs: seq<seq<byte>>, csd0: Option<seq<byte>>, csd1: Option<seq<byte>>): Option<H264Csd>
    decreases |segs|
  {
    if segs == [] || |segs[0]| <= 4 then None
    else
      var t := NalUnitType(segs[0][4]);
      var c0 := if t == NAL_TYPE_SPS then Some(segs[0]) else csd0;
      var c1 := if t == NAL_TYPE_PPS then Some(segs[0]) else csd1;
      if c0.Some? && c1.Some? then Some(H264Csd(c0.value, c1.value))
      else ScanSegments(segs[1..], c0, c1)
  }

  /** Over ordered edges, the window scan is the scan of the segments. */
  lemma {:induction false} ScanWindowsIsScanSegments(data: seq<byte>, bs: seq<nat>, csd0: Option<seq<byte>>, csd1: Option<seq<byte>>)
    requires forall k :: 0 <= k < |bs| ==> bs[k] <= |data|
    requires forall i, j :: 0 <= i < j < |bs| ==> bs[i] <= bs[j]
    ensures ScanWindows(data, bs, csd0, csd1) == ScanSegments(Segments(data, bs), csd0, csd1)
    decreases |bs|
  {
    if |bs| >= 2 {
      var segs := Segments(data, bs);
      assert segs[1..] == Segments(data, bs[1..]);
      var nal := data[bs[0]..bs[1]];
      if |nal| > 4 {
        var t := NalUnitType(nal[4]);
        var c0 := if t == NAL_TYPE_SPS then Some(nal) else csd0;
        var c1 := if t == NAL_TYPE_PPS then Some(nal) else csd1;
        ScanWindowsIsScanSegments(data, bs[1..], c0, c1);
      }
    }
  }

  /** A segment shorter than five bytes reached before both parameter sets
      were seen makes the segment scan `None`. */
  lemma {:induction false} ScanSegmentsShortAborts(segs: seq<seq<byte>>, csd0: Option<seq<byte>>, csd1: Option<seq<byte>>, n: nat)
    requires n < |segs| && |segs[n]| <= 4
    requires forall k :: 0 <= k < n ==> |segs[k]| > 4
    requires !Seen(csd0, csd1, segs[..n])
    ensures ScanSegments(segs, csd0, csd1) == None
    decreases n
  {
    if n == 0 {
      assert segs[..0] == [];
    } else {
      var x := segs[0];
      assert segs[..n] == [x] + segs[1..][..n - 1];
      var t := NalUnitType(x[4]);
      var c0 := if t == NAL_TYPE_SPS then Some(x) else csd0;
      var c1 := if t == NAL_TYPE_PPS then Some(x) else csd1;
      LatestCons(csd0, x, segs[1..][..n - 1], NAL_TYPE_SPS);
      LatestCons(csd1, x, segs[1..][..n - 1], NAL_TYPE_PPS);
      ScanSegmentsShortAborts(segs[1..], c0, c1, n - 1);
    }
  }

  /** A segment shorter than five bytes reached before both parameter sets were
      seen makes the whole result `None`. */
  lemma ShortSegmentAborts(data: seq<byte>, bs: seq<nat>, csd0: Option<seq<byte>>, csd1: Option<seq<byte>>, n: nat)
    requires forall k :: 0 <= k < |bs| ==> bs[k] <= |data|
    requires forall i, j :: 0 <= i < j < |bs| ==> bs[i] <= bs[j]
    requires n + 1 < |bs| && bs[n + 1] - bs[n] <= 4
    requires forall k :: 0 <= k < n ==> bs[k + 1] - bs[k] > 4
    requires !Seen(csd0, csd1, Segments(data, bs)[..n])
    ensures ScanWindows(data, bs, csd0, csd1) == None
  {
    var segs := Segments(data, bs);
    forall k | 0 <= k < n ensures |segs[k]| > 4 {
      assert segs[k] == data[bs[k]..bs[k + 1]];
    }
    ScanSegmentsShortAborts(segs, csd0, csd1, n);
    ScanWindowsIsScanSegments(data, bs, csd0, csd1);
  }

  /** Which pair the segment scan returns: when the `n`-th segment is the
      first after which both parameter sets are known, and every segment up to
      it is long enough to carry a type, the latest SPS and the latest PPS up
      to it (or what the scan started with). */
  lemma {:induction false} ScanSegmentsPicksLatest(segs: seq<seq<byte>>, csd0: Option<seq<byte>>, csd1: Option<seq<byte>>, n: nat)
    requires FirstPairAt(segs, csd0, csd1, n)
    ensures ScanSegments(segs, csd0, csd1) ==
      Some(H264Csd(Latest(csd0, segs[..n], NAL_TYPE_SPS).value, Latest(csd1, segs[..n], NAL_TYPE_PPS).value))
    decreases n
  {
    var x, rest := segs[0], segs[1..];
    assert |x| > 4;
    var t := NalUnitType(x[4]);
    var c0 := if t == NAL_TYPE_SPS then Some(x) else csd0;
    var c1 := if t == NAL_TYPE_PPS then Some(x) else csd1;
    assert segs[..n] == [x] + rest[..n - 1];
    LatestCons(csd0, x, rest[..n - 1], NAL_TYPE_SPS);
    LatestCons(csd1, x, rest[..n - 1], NAL_TYPE_PPS);
    if n == 1 {
      assert rest[..0] == [];
    } else {
      assert segs[..n - 1] == [x] + rest[..n - 2];
      LatestCons(csd0, x, rest[..n - 2], NAL_TYPE_SPS);
      LatestCons(csd1, x, rest[..n - 2], NAL_TYPE_PPS);
      forall k | 0 <= k < n - 1 ensures |rest[k]| > 4 {
        assert rest[k] == segs[k + 1];
      }
      ScanSegmentsPicksLatest(rest, c0, c1, n - 1);
    }
  }

  /** The same for the window scan of `from_slice`. */
  lemma ScanWindowsPicksLatest(data: seq<byte>, bs: seq<nat>, csd0: Option<seq<byte>>, csd1: Option<seq<byte>>, n: nat)
    requires forall k :: 0 <= k < |bs| ==> bs[k] <= |data|
    requires forall i, j :: 0 <= i < j < |bs| ==> bs[i] <= bs[j]
    requires FirstPairAt(Segments(data, bs), csd0, csd1, n)
    ensures var segs := Segments(data, bs);
      ScanWindows(data, bs, csd0, csd1) ==
        Some(H264Csd(Latest(csd0, segs[..n], NAL_TYPE_SPS).value, Latest(csd1, segs[..n], NAL_TYPE_PPS).value))
  {
    ScanSegmentsPicksLatest(Segments(data, bs), csd0, csd1, n);
    ScanWindowsIsScanSegments(data, bs, csd0, csd1);
  }

  /** `from_slice` returns the last SPS and the last PPS among the segments up
      to the first one after which both have been seen: a repeated SPS or PPS
      before that point replaces the earlier one. */
  lemma FromSlicePicksLatest(data: seq<byte>, n: nat)
    requires WindowsAreOrdered(data)
    requires FirstPairAt(Segments(data, Windows(data)), None, None, n)
    ensures var segs := Segments(data, Windows(data));
      FromSliceSpec(data) ==
        Some(H264Csd(LastOfType(segs[..n], NAL_TYPE_SPS).value, LastOfType(segs[..n], NAL_TYPE_PPS).value))
  {
    ScanWindowsPicksLatest(data, Windows(data), None, None, n);
  }

  /** When every segment is at least five bytes long and some segment is an SPS
      and a later or earlier one a PPS, `from_slice` finds a pair. */
  lemma {:induction false} ScanWindowsComplete(data: seq<byte>, bs: seq<nat>, csd0: Option<seq<byte>>, csd1: Option<seq<byte>>)
    requires forall k :: 0 <= k < |bs| ==> bs[k] <= |data|
    requires forall i, j :: 0 <= i < j < |bs| ==> bs[i] <= bs[j]
    requires forall s :: s in Segments(data, bs) ==> |s| > 4
    requires csd0.Some? || exists s :: s in Segments(data, bs) && NalUnitType(s[4]) == NAL_TYPE_SPS
    requires csd1.Some? || exists s :: s in Segments(data, bs) && NalUnitType(s[4]) == NAL_TYPE_PPS
    requires !(csd0.Some? && csd1.Some?)
    ensures ScanWindows(data, bs, csd0, csd1).Some?
    decreases |bs|
  {
    var segs := Segments(data, bs);
    assert |bs| >= 2;
    var nal := data[bs[0]..bs[1]];
    assert segs == [nal] + Segments(data, bs[1..]);
    assert nal in segs;
    var t := NalUnitType(nal[4]);
    var c0 := if t == NAL_TYPE_SPS then Some(nal) else csd0;
    var c1 := if t == NAL_TYPE_PPS then Some(nal) else csd1;
    if !(c0.Some? && c1.Some?) {
      var rest := Segments(data, bs[1..]);
      if c0 == None {
        var s :| s in segs && NalUnitType(s[4]) == NAL_TYPE_SPS;
        assert s != nal;
        assert s in rest;
      }
      if c1 == None {
        var s :| s in segs && NalUnitType(s[4]) == NAL_TYPE_PPS;
        assert s != nal;
        assert s in rest;
      }
      ScanWindowsComplete(data, bs[1..], c0, c1);
    }
  }

  /** `CStr::from_ptr` on a NUL-free name followed by a NUL gives the name. */
  lemma {:induction false} CStrOfTerminated(name: seq<char>)
    requires '\0' !in name
    ensures CStr(name + "\0") == name
  {
    if name != [] {
      assert (name + "\0")[1..] == name[1..] + "\0";
      CStrOfTerminated(name[1..]);
    }
  }

  /** The three MIME constants read back as their names. */
  lemma MimeConstantNames()
    ensures CStr(AV1_MIME_TYPE) == "video/av01"
    ensures CStr(HEVC_MIME_TYPE) == "video/hevc"
    ensures CStr(H264_MIME_TYPE) == "video/avc"
  {
    Av1ConstantName();
    HevcConstantName();
    H264ConstantName();
  }

  lemma Av1ConstantName()
    ensures CStr(AV1_MIME_TYPE) == "video/av01"
  {
    assert AV1_MIME_TYPE == "video/av01" + "\0";
    CStrOfTerminated("video/av01");
  }

  lemma HevcConstantName()
    ensures CStr(HEVC_MIME_TYPE) == "video/hevc"
  {
    assert HEVC_MIME_TYPE == "video/hevc" + "\0";
    CStrOfTerminated("video/hevc");
  }

  lemma H264ConstantName()
    ensures CStr(H264_MIME_TYPE) == "video/avc"
  {
    assert H264_MIME_TYPE == "video/avc" + "\0";
    CStrOfTerminated("video/avc");
  }

  /** `MediaFormatMimeType for &str` as written: `"video/av01"` is mapped to the
      H.264 name. Any other string panics, hence the precondition. */
  function StrMimeTypeAsWritten(s: seq<char>): (r: seq<char>)
    requires s in {"video/av01", "video/hevc", "video/avc"}
    ensures r in {"video/avc", "video/hevc"}
    ensures r == "video/avc" <==> s != "video/hevc"
  {
    MimeConstantNames();
    if s == "video/av01" then CStr(H264_MIME_TYPE)
    else if s == "video/hevc" then CStr(HEVC_MIME_TYPE)
    else CStr(H264_MIME_TYPE)
  }

  /** As written, an AV1 stream would configure the codec as H.264. */
  lemma Av1MappedToH264()
    ensures StrMimeTypeAsWritten("video/av01") == "video/avc"
    ensures Mime.FromStr(StrMimeTypeAsWritten("video/av01")) == Ok(Mime.VideoH264)
    ensures Mime.FromStr("video/av01") == Ok(Mime.VideoAv1)
  {
    Mime.VideoAndroidNames();
    Mime.AndroidStrRoundTrip(Mime.VideoH264);
    Mime.AndroidStrRoundTrip(Mime.VideoAv1);
  }

  /** The mapping with `"video/av01"` sent to the otherwise unused AV1 constant:
      every supported name maps to itself. */
  function StrMimeType(s: seq<char>): (r: seq<char>)
    requires s in {"video/av01", "video/hevc", "video/avc"}
    ensures r == s
  {
    MimeConstantNames();
    if s == "video/av01" then CStr(AV1_MIME_TYPE)
    else if s == "video/hevc" then CStr(HEVC_MIME_TYPE)
    else CStr(H264_MIME_TYPE)
  }

  /** The corrected mapping preserves the parsed MIME type. */
  lemma StrMimeTypePreservesType(s: seq<char>)
    requires s in {"video/av01", "video/hevc", "video/avc"}
    ensures Mime.FromStr(StrMimeType(s)) == Mime.FromStr(s)
    ensures Mime.FromStr(StrMimeType(s)).Ok?
  {
    Mime.VideoAndroidNames();
    Mime.AndroidStrRoundTrip(Mime.VideoAv1);
    Mime.AndroidStrRoundTrip(Mime.VideoH264);
    Mime.AndroidStrRoundTrip(Mime.VideoH265);
  }
}
