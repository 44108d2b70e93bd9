/** `H264Decoder` (app/src/main/rust/src/webrtc/decoder/h264.rs): collects the
    SPS, the PPS and the resolution from parameter-set NAL units and builds the
    codec configuration `00 00 00 01 ++ SPS ++ 00 00 00 01 ++ PPS` (the Annex B
    byte stream of ITU-T H.264). Splitting a payload into NAL units
    (`nalu_chunks`) and parsing the resolution out of an SPS
    (`H264Codec::get_resolution`) belong to an external crate: the first is the
    `chunks` argument, the second the `resolutionOf` argument. */
module H264Config {
  import opened Common

  /** The four fields of `H264Decoder`. */
  datatype H264State = H264State(
    sps: Option<seq<byte>>,
    pps: Option<seq<byte>>,
    codecConfig: Option<seq<byte>>,
    resolution: Option<(int, int)>)

  /** `H264Decoder::default()`. */
  const EMPTY: H264State := H264State(None, None, None, None)

  /** `init_done`. */
  predicate InitDone(s: H264State) {
    s.codecConfig.Some? && s.resolution.Some?
  }

  /** The state after `build_codec_config`. */
  function BuildConfig(s: H264State): H264State {
    if s.sps.Some? && s.pps.Some? && s.resolution.Some? then
      s.(codecConfig := Some(START_CODE + s.sps.value + START_CODE + s.pps.value))
    else s
  }

  /** How `read_payload` ends: it returns its result, or it panics indexing the
      first byte of an empty unit. */
  datatype ReadOutcome = Returned(result: Result<(), ()>) | EmptyUnitPanic

  /** One iteration of the loop of `read_payload` over a non-empty NAL unit:
      `None` is the early `Err(())` for a unit that is neither an SPS nor a PPS. */
  function ChunkStep(s: H264State, nalu: seq<byte>, resolutionOf: seq<byte> -> Option<(int, int)>): Option<H264State>
    requires |nalu| > 0
  {
    var t := NalUnitType(nalu[0]);
    if t == NAL_TYPE_SPS then
      match resolutionOf(nalu)
      case Some(res) => Some(BuildConfig(s.(resolution := Some(res), sps := Some(nalu))))
      case None => Some(s)
    else if t == NAL_TYPE_PPS then
      Some(BuildConfig(s.(pps := Some(nalu))))
    else None
  }

  predicate NonEmptyUnits(chunks: seq<seq<byte>>) {
    forall k :: 0 <= k < |chunks| ==> |chunks[k]| > 0
  }

  /** The loop of `read_payload` over the NAL units: how it ends, and the state
      it leaves (on a panic, the state when it panicked). */
  function ApplyChunks(s: H264State, chunks: seq<seq<byte>>, resolutionOf: seq<byte> -> Option<(int, int)>): (ReadOutcome, H264State)
    decreases |chunks|
  {
    if chunks == [] then (Returned(Ok(())), s)
    else if chunks[0] == [] then (EmptyUnitPanic, s)      // `nalu[0]`
    else
      match ChunkStep(s, chunks[0], resolutionOf)
      case None => (Returned(Err(())), s)
      case Some(t) => ApplyChunks(t, chunks[1..], resolutionOf)
  }

  /** `read_payload`: how it ends and the new state. */
  function ReadPayloadSpec(s: H264State, payload: seq<byte>, chunks: seq<seq<byte>>,
                           resolutionOf: seq<byte> -> Option<(int, int)>): (ReadOutcome, H264State)
  {
    if payload == [] then (Returned(Err(())), s) else ApplyChunks(s, chunks, resolutionOf)
  }

  /** The codec configuration is present exactly when SPS, PPS and resolution are,
      and is then the two parameter sets, each behind a start code. */
  predicate Consistent(s: H264State) {
    s.codecConfig ==
      if s.sps.Some? && s.pps.Some? && s.resolution.Some?
      then Some(START_CODE + s.sps.value + START_CODE + s.pps.value)
      else None
  }

  /** No field that was set is cleared. */
  predicate Grows(s: H264State, t: H264State) {
    (s.sps.Some? ==> t.sps.Some?) && (s.pps.Some? ==> t.pps.Some?) &&
    (s.codecConfig.Some? ==> t.codecConfig.Some?) && (s.resolution.Some? ==> t.resolution.Some?)
  }

  /** What one NAL unit does: an SPS whose resolution parses replaces SPS and
      resolution, an SPS whose resolution does not parse is ignored, a PPS always
      replaces the PPS, and anything else stops with an error. Consistency is
      kept and no field is cleared. */
  lemma ChunkStepEffect(s: H264State, nalu: seq<byte>, resolutionOf: seq<byte> -> Option<(int, int)>)
    requires |nalu| > 0 && Consistent(s)
    ensures var r := ChunkStep(s, nalu, resolutionOf);
      var t := NalUnitType(nalu[0]);
      (r.None? <==> t != NAL_TYPE_SPS && t != NAL_TYPE_PPS) &&
      (t == NAL_TYPE_SPS && resolutionOf(nalu).None? ==> r == Some(s)) &&
      (t == NAL_TYPE_SPS && resolutionOf(nalu).Some? ==>
         r.value.sps == Some(nalu) && r.value.resolution == resolutionOf(nalu) && r.value.pps == s.pps) &&
      (t == NAL_TYPE_PPS ==>
         r.value.pps == Some(nalu) && r.value.sps == s.sps && r.value.resolution == s.resolution) &&
      (r.Some? ==> Consistent(r.value) && Grows(s, r.value))
  {
  }

  /** `read_payload` keeps the configuration consistent and clears nothing,
      whether it succeeds or fails. */
  lemma {:induction false} ApplyChunksKeeps(s: H264State, chunks: seq<seq<byte>>, resolutionOf: seq<byte> -> Option<(int, int)>)
    requires Consistent(s)
    ensures Consistent(ApplyChunks(s, chunks, resolutionOf).1)
    ensures Grows(s, ApplyChunks(s, chunks, resolutionOf).1)
    decreases |chunks|
  {
    if chunks != [] && chunks[0] != [] {
      ChunkStepEffect(s, chunks[0], resolutionOf);
      var r := ChunkStep(s, chunks[0], resolutionOf);
      if r.Some? {
        ApplyChunksKeeps(r.value, chunks[1..], resolutionOf);
      }
    }
  }

  /** The same for `read_payload` as a whole. */
  lemma ReadPayloadKeeps(s: H264State, payload: seq<byte>, chunks: seq<seq<byte>>, resolutionOf: seq<byte> -> Option<(int, int)>)
    requires Consistent(s)
    ensures Consistent(ReadPayloadSpec(s, payload, chunks, resolutionOf).1)
    ensures Grows(s, ReadPayloadSpec(s, payload, chunks, resolutionOf).1)
    ensures InitDone(s) ==> InitDone(ReadPayloadSpec(s, payload, chunks, resolutionOf).1)
  {
    if payload != [] {
      ApplyChunksKeeps(s, chunks, resolutionOf);
    }
  }

  /** On a consistent state `init_done` means SPS, PPS and resolution are all
      known, and the configuration is `8 + |sps| + |pps|` bytes of two start codes
      and the two parameter sets. */
  lemma InitDoneMeansConfigured(s: H264State)
    requires Consistent(s)
    ensures InitDone(s) <==> s.sps.Some? && s.pps.Some? && s.resolution.Some?
    ensures InitDone(s) ==>
      var c := s.codecConfig.value;
      |c| == 8 + |s.sps.value| + |s.pps.value| &&
      c[..4] == START_CODE && c[4..4 + |s.sps.value|] == s.sps.value &&
      c[4 + |s.sps.value|..8 + |s.sps.value|] == START_CODE &&
      c[8 + |s.sps.value|..] == s.pps.value
  {
    if InitDone(s) {
      var c, sps, pps := s.codecConfig.value, s.sps.value, s.pps.value;
      assert c == START_CODE + sps + START_CODE + pps;
      assert c[..4] == START_CODE;
      assert c[4..4 + |sps|] == sps;
      assert c[4 + |sps|..8 + |sps|] == START_CODE;
      assert c[8 + |sps|..] == pps;
    }
  }

  /** An empty payload is rejected and changes nothing. */
  lemma EmptyPayloadRejected(s: H264State, chunks: seq<seq<byte>>, resolutionOf: seq<byte> -> Option<(int, int)>)
    ensures ReadPayloadSpec(s, [], chunks, resolutionOf) == (Returned(Err(())), s)
  {
  }

  /** Every unit is a non-empty parameter set. */
  predicate AllParameterSets(chunks: seq<seq<byte>>) {
    forall k :: 0 <= k < |chunks| ==> |chunks[k]| > 0 && NalUnitType(chunks[k][0]) in {NAL_TYPE_SPS, NAL_TYPE_PPS}
  }

  /** The loop stops at the first unit that is empty or not a parameter set,
      keeping the updates of the units before it: an empty one panics, any
      other fails; with no such unit, it succeeds after all of them. */
  lemma {:induction false} ApplyChunksStopsAtFirstOther(s: H264State, chunks: seq<seq<byte>>, resolutionOf: seq<byte> -> Option<(int, int)>, k: nat)
    requires k <= |chunks| && AllParameterSets(chunks[..k])
    ensures k < |chunks| && chunks[k] == [] ==>
      ApplyChunks(s, chunks, resolutionOf) == (EmptyUnitPanic, ApplyChunks(s, chunks[..k], resolutionOf).1)
    ensures k < |chunks| && chunks[k] != [] && NalUnitType(chunks[k][0]) !in {NAL_TYPE_SPS, NAL_TYPE_PPS} ==>
      ApplyChunks(s, chunks, resolutionOf) == (Returned(Err(())), ApplyChunks(s, chunks[..k], resolutionOf).1)
    ensures k == |chunks| ==> ApplyChunks(s, chunks, resolutionOf).0 == Returned(Ok(()))
    decreases k
  {
    if k > 0 {
      assert |chunks[..k][0]| > 0 && NalUnitType(chunks[..k][0][0]) in {NAL_TYPE_SPS, NAL_TYPE_PPS};
      var t := ChunkStep(s, chunks[0], resolutionOf).value;
      assert chunks[..k][1..] == chunks[1..][..k - 1];
      ApplyChunksStopsAtFirstOther(t, chunks[1..], resolutionOf, k - 1);
    }
  }

  /** Only an empty unit makes `read_payload` panic. */
  lemma {:induction false} ApplyChunksPanicsOnlyOnEmpty(s: H264State, chunks: seq<seq<byte>>, resolutionOf: seq<byte> -> Option<(int, int)>)
    requires NonEmptyUnits(chunks)
    ensures ApplyChunks(s, chunks, resolutionOf).0.Returned?
    decreases |chunks|
  {
    if chunks != [] {
      assert |chunks[0]| > 0;
      var r := ChunkStep(s, chunks[0], resolutionOf);
      if r.Some? {
        ApplyChunksPanicsOnlyOnEmpty(r.value, chunks[1..], resolutionOf);
      }
    }
  }

  class H264Decoder {
    var sps: Option<seq<byte>>
    var pps: Option<seq<byte>>
    var codecConfig: Option<seq<byte>>
    var resolution: Option<(int, int)>

    function State(): H264State
      reads this
    {
      H264State(sps, pps, codecConfig, resolution)
    }

    /** `H264Decoder::default()`. */
    constructor ()
      ensures State() == EMPTY
    {
      sps, pps, codecConfig, resolution := None, None, None, None;
    }

    /** `build_codec_config`: the configuration is grown by four appends. */
    method BuildCodecConfig()
      modifies this
      ensures State() == BuildConfig(old(State()))
    {
      if sps.Some? && pps.Some? && resolution.Some? {
        var config: seq<byte> := [];
        config := config + START_CODE;
        assert config == START_CODE;
        config := config + sps.value;
        config := config + START_CODE;
        config := config + pps.value;
        codecConfig := Some(config);
      }
    }

    /** `read_payload`. */
    method ReadPayload(payload: seq<byte>, chunks: seq<seq<byte>>, resolutionOf: seq<byte> -> Option<(int, int)>)
      returns (r: ReadOutcome)
      modifies this
      ensures (r, State()) == ReadPayloadSpec(old(State()), payload, chunks, resolutionOf)
    {
      if payload == [] {
        return Returned(Err(()));
      }
      var i := 0;
      while i < |chunks|
        invariant i <= |chunks|
        invariant ApplyChunks(old(State()), chunks, resolutionOf) == ApplyChunks(State(), chunks[i..], resolutionOf)
      {
        var nalu := chunks[i];
        assert chunks[i..][0] == nalu && chunks[i..][1..] == chunks[i + 1..];
        if nalu == [] {
          return EmptyUnitPanic;
        }
        var t := NalUnitType(nalu[0]);
        if t == NAL_TYPE_SPS {
          var res := resolutionOf(nalu);
          if res.Some? {
            resolution := Some(res.value);
            sps := Some(nalu);
            BuildCodecConfig();
          }
        } else if t == NAL_TYPE_PPS {
          pps := Some(nalu);
          BuildCodecConfig();
        } else {
          return Returned(Err(()));
        }
        i := i + 1;
      }
      return Returned(Ok(()));
    }
  }
}
