/** Start codes of the H.264 Annex B byte stream (ITU-T H.264 Annex B), as the
    two scanners of this code base recognise them. A scanner counts the run of
    zero bytes in front of each `0x01` byte; a run that its rule accepts marks a
    NAL boundary at the first zero of the run. This module states declaratively
    which indices are boundaries; the scanning loops themselves live with the
    source files that contain them (VideoFormat, PrototypeFormat). */
module AnnexB {
  import opened Common

  /** How many zeros before a `0x01` make a start code. */
  datatype StartCodeRule =
    | AtLeastTwoZeros    // media/format/video.rs: `zeroes >= 2`
    | ExactlyThreeZeros  // src/media_format.rs: `zeroes == 3`

  predicate Accepts(rule: StartCodeRule, zeroes: nat) {
    match rule
    case AtLeastTwoZeros => zeroes >= 2
    case ExactlyThreeZeros => zeroes == 3
  }

  /** The first index at or after `j` that holds a non-zero byte, or `|data|`. */
  function ZeroRunEnd(data: seq<byte>, j: nat): (e: nat)
    requires j <= |data|
    ensures j <= e <= |data|
    ensures forall k :: j <= k < e ==> data[k] == 0
    ensures e < |data| ==> data[e] != 0
    decreases |data| - j
  {
    if j == |data| || data[j] != 0 then j else ZeroRunEnd(data, j + 1)
  }

  /** `b` is where a maximal run of zeros starts that is ended by a `0x01` and
      whose length `rule` accepts. */
  predicate IsStartCode(data: seq<byte>, b: nat, rule: StartCodeRule) {
    b < |data| && (b == 0 || data[b - 1] != 0) &&
    var e := ZeroRunEnd(data, b);
    e < |data| && data[e] == 1 && Accepts(rule, e - b)
  }

  /** The start codes below `hi`, in increasing order. */
  function StartCodesBelow(data: seq<byte>, hi: nat, rule: StartCodeRule): seq<nat>
    requires hi <= |data|
  {
    if hi == 0 then []
    else StartCodesBelow(data, hi - 1, rule) + (if IsStartCode(data, hi - 1, rule) then [hi - 1] else [])
  }

  /** All start codes of `data`, in increasing order. */
  function StartCodes(data: seq<byte>, rule: StartCodeRule): seq<nat> {
    StartCodesBelow(data, |data|, rule)
  }

  predicate StrictlyIncreasing(s: seq<nat>) {
    forall i, j :: 0 <= i < j < |s| ==> s[i] < s[j]
  }

  /** The list below `hi` holds exactly the start codes below `hi`, each once, in
      strictly increasing order. */
  lemma {:induction false} StartCodesBelowExact(data: seq<byte>, hi: nat, rule: StartCodeRule)
    requires hi <= |data|
    ensures forall b: nat :: b in StartCodesBelow(data, hi, rule) <==> b < hi && IsStartCode(data, b, rule)
    ensures StrictlyIncreasing(StartCodesBelow(data, hi, rule))
  {
    if hi > 0 {
      StartCodesBelowExact(data, hi - 1, rule);
      var prefix := StartCodesBelow(data, hi - 1, rule);
      if IsStartCode(data, hi - 1, rule) {
        var codes := prefix + [hi - 1];
        assert StartCodesBelow(data, hi, rule) == codes;
        forall i | 0 <= i < |prefix| ensures prefix[i] < hi - 1 {
          assert prefix[i] in prefix;
        }
        forall i, j | 0 <= i < j < |codes| ensures codes[i] < codes[j] {
          assert codes[i] == prefix[i];
        }
      } else {
        assert StartCodesBelow(data, hi, rule) == prefix;
      }
    }
  }

  /** `StartCodes` lists exactly the start codes of `data`, in strictly increasing
      order (by `ZeroRunEnd`, each is followed by zeros up to the `0x01` that
      ends its run). */
  lemma StartCodesExact(data: seq<byte>, rule: StartCodeRule)
    ensures forall b: nat :: b in StartCodes(data, rule) <==> IsStartCode(data, b, rule)
    ensures StrictlyIncreasing(StartCodes(data, rule))
  {
    StartCodesBelowExact(data, |data|, rule);
  }

  /** Indices without a start code do not change the list. */
  lemma {:induction false} SkipNonStartCodes(data: seq<byte>, lo: nat, hi: nat, rule: StartCodeRule)
    requires lo <= hi <= |data|
    requires forall k :: lo <= k < hi ==> !IsStartCode(data, k, rule)
    ensures StartCodesBelow(data, hi, rule) == StartCodesBelow(data, lo, rule)
    decreases hi
  {
    if hi > lo {
      SkipNonStartCodes(data, lo, hi - 1, rule);
    }
  }

  /** The zero run starting at `s` ends at `i`. */
  lemma {:induction false} ZeroRunEndsAt(data: seq<byte>, s: nat, i: nat)
    requires s <= i < |data| && data[i] != 0
    requires forall k :: s <= k < i ==> data[k] == 0
    ensures ZeroRunEnd(data, s) == i
    decreases i - s
  {
    if s < i {
      ZeroRunEndsAt(data, s + 1, i);
    }
  }

  /** One scanner step over a non-zero byte `data[i]` that ends the zero run
      `data[s..i]`: the start-code list grows by `s` exactly when the byte is
      `0x01` and the run is long enough. */
  lemma RunEndedStep(data: seq<byte>, s: nat, i: nat, rule: StartCodeRule)
    requires s <= i < |data| && data[i] != 0
    requires forall k :: s <= k < i ==> data[k] == 0
    requires s == 0 || data[s - 1] != 0
    ensures StartCodesBelow(data, i + 1, rule) ==
      StartCodesBelow(data, s, rule) + (if data[i] == 1 && Accepts(rule, i - s) then [s] else [])
  {
    ZeroRunEndsAt(data, s, i);
    forall k | s + 1 <= k < i + 1 ensures !IsStartCode(data, k, rule) {
      assert data[k - 1] == 0;
    }
    SkipNonStartCodes(data, s + 1, i + 1, rule);
    if s == i {
      assert !Accepts(rule, 0);
    }
  }

  /** A trailing zero run that no `0x01` ends holds no start code. */
  lemma TrailingZerosNoStartCode(data: seq<byte>, s: nat, rule: StartCodeRule)
    requires s <= |data|
    requires forall k :: s <= k < |data| ==> data[k] == 0
    requires s == 0 || s == |data| || data[s - 1] != 0
    ensures StartCodes(data, rule) == StartCodesBelow(data, s, rule)
  {
    forall k | s <= k < |data| ensures !IsStartCode(data, k, rule) {
      if k == s {
        assert ZeroRunEnd(data, k) == |data|;
      } else {
        assert data[k - 1] == 0;
      }
    }
    SkipNonStartCodes(data, s, |data|, rule);
  }
}
