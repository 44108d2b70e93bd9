/** `RateLimitedPli` (app/src/main/rust/src/webrtc/decoder/rtcp_helper.rs): asks
    the sender for a new key frame with an RTCP Picture Loss Indication
    (section 6.3.1 of RFC 4585), at most once per interval. The wall clock is an
    integer time line on which `UNIX_EPOCH` is 0, and the outcome of
    `write_rtcp` is a parameter of each call. */
module RtcpHelper {
  import opened Common

  const UNIX_EPOCH: int := 0

  /** The PLI packet: the sender SSRC is left 0, the media SSRC names the track. */
  datatype PictureLossIndication = PictureLossIndication(senderSsrc: int, mediaSsrc: int)

  /** The error `write_rtcp` propagates through `?`. */
  datatype SendError = RtcpWriteFailed

  /** `now.duration_since(last)` succeeds (the clock has not gone back) and the
      duration exceeds the interval. */
  predicate Due(last: int, interval: nat, now: int) {
    now >= last && now - last > interval
  }

  /** One call of `send`: its result and the new `last_pli_time`. A write is
      attempted only when `Due`; `writeOk` is whether `write_rtcp` succeeds. */
  function SendStep(last: int, interval: nat, now: int, writeOk: bool): (o: (Result<(), SendError>, int))
    ensures o.1 == last || (o.1 == now && now - last > interval)
    ensures o.0.Err? <==> Due(last, interval, now) && !writeOk
    ensures o.0.Err? ==> o.1 == last
    ensures now - last <= interval ==> o == (Ok(()), last)
    ensures o.1 != last <==> Due(last, interval, now) && writeOk && now != last
  {
    if Due(last, interval, now) then
      if writeOk then (Ok(()), now) else (Err(RtcpWriteFailed), last)
    else (Ok(()), last)
  }

  /** One call of `send` at time `now` whose write (if attempted) succeeds or not. */
  datatype SendCall = SendCall(now: int, writeOk: bool)

  /** The times at which a PLI was written by a sequence of calls that starts with
      `last_pli_time == last`. */
  function Writes(last: int, interval: nat, calls: seq<SendCall>): seq<int>
    decreases |calls|
  {
    if calls == [] then []
    else
      var c := calls[0];
      if Due(last, interval, c.now) && c.writeOk then [c.now] + Writes(c.now, interval, calls[1..])
      else Writes(last, interval, calls[1..])
  }

  /** The `last_pli_time` after a sequence of calls. */
  function LastAfter(last: int, interval: nat, calls: seq<SendCall>): int
    decreases |calls|
  {
    if calls == [] then last
    else LastAfter(SendStep(last, interval, calls[0].now, calls[0].writeOk).1, interval, calls[1..])
  }

  /** Every write comes more than `interval` after the previous one (the first
      after `start`). */
  predicate Spaced(start: int, interval: nat, ws: seq<int>)
    decreases |ws|
  {
    ws == [] || (ws[0] - start > interval && Spaced(ws[0], interval, ws[1..]))
  }

  /** The latest write, or `start` when there was none. */
  function LastOr(start: int, ws: seq<int>): int {
    if ws == [] then start else ws[|ws| - 1]
  }

  /** Whatever the clock does and whichever writes fail, the written PLIs are
      spaced by more than the interval, and `last_pli_time` is the latest write. */
  lemma {:induction false} WritesSpaced(last: int, interval: nat, calls: seq<SendCall>)
    ensures Spaced(last, interval, Writes(last, interval, calls))
    ensures LastAfter(last, interval, calls) == LastOr(last, Writes(last, interval, calls))
    decreases |calls|
  {
    if calls != [] {
      var c := calls[0];
      var next := SendStep(last, interval, c.now, c.writeOk).1;
      WritesSpaced(next, interval, calls[1..]);
      if Due(last, interval, c.now) && c.writeOk {
        var rest := Writes(c.now, interval, calls[1..]);
        assert ([c.now] + rest)[1..] == rest;
      }
    }
  }

  /** Spacing makes any two writes, not only neighbours, more than the interval
      apart. */
  lemma {:induction false} SpacedPairwise(start: int, interval: nat, ws: seq<int>)
    requires Spaced(start, interval, ws)
    ensures forall i, j :: 0 <= i < j < |ws| ==> ws[j] - ws[i] > interval
    ensures forall j :: 0 <= j < |ws| ==> ws[j] - start > interval
    decreases |ws|
  {
    if ws != [] {
      SpacedPairwise(ws[0], interval, ws[1..]);
      forall i, j | 0 <= i < j < |ws| ensures ws[j] - ws[i] > interval {
        if i > 0 {
          assert ws[i] == ws[1..][i - 1] && ws[j] == ws[1..][j - 1];
        } else {
          assert ws[j] == ws[1..][j - 1];
        }
      }
    }
  }

  /** Extending a spaced history by a write due after its latest entry keeps it
      spaced. */
  lemma {:induction false} SpacedSnoc(start: int, interval: nat, ws: seq<int>, t: int)
    requires Spaced(start, interval, ws)
    requires t - LastOr(start, ws) > interval
    ensures Spaced(start, interval, ws + [t])
    decreases |ws|
  {
    if ws != [] {
      assert (ws + [t])[1..] == ws[1..] + [t];
      SpacedSnoc(ws[0], interval, ws[1..], t);
    }
  }

  /** Calls spaced by more than the interval whose writes succeed each write a
      PLI: the limiter drops nothing it need not drop. */
  lemma {:induction false} SpacedCallsAllWrite(last: int, interval: nat, calls: seq<SendCall>)
    requires forall k :: 0 <= k < |calls| ==> calls[k].writeOk
    requires Spaced(last, interval, seq(|calls|, k requires 0 <= k < |calls| => calls[k].now))
    ensures Writes(last, interval, calls) == seq(|calls|, k requires 0 <= k < |calls| => calls[k].now)
    decreases |calls|
  {
    if calls != [] {
      var times := seq(|calls|, k requires 0 <= k < |calls| => calls[k].now);
      assert times[1..] == seq(|calls[1..]|, k requires 0 <= k < |calls[1..]| => calls[1..][k].now);
      SpacedCallsAllWrite(calls[0].now, interval, calls[1..]);
    }
  }

  /** Starting from the epoch, the first call writes exactly when `now` is more
      than one interval past the epoch (and the write succeeds). */
  lemma FirstCallFromEpoch(interval: nat, now: int, writeOk: bool)
    ensures Writes(UNIX_EPOCH, interval, [SendCall(now, writeOk)]) ==
      if now > UNIX_EPOCH + interval && writeOk then [now] else []
  {
  }

  class RateLimitedPli {
    /** `rtcp_packets`: the one PLI packet written on every send. */
    const rtcpPackets: seq<PictureLossIndication>
    var lastPliTime: int
    const pliInterval: nat
    /** The times of the PLIs written so far. */
    ghost var writes: seq<int>

    ghost predicate Valid()
      reads this
    {
      |rtcpPackets| == 1 && rtcpPackets[0].senderSsrc == 0 &&
      Spaced(UNIX_EPOCH, pliInterval, writes) && lastPliTime == LastOr(UNIX_EPOCH, writes)
    }

    /** `RateLimitedPli::new`. */
    constructor (mediaSsrc: int, pliInterval: nat)
      ensures Valid()
      ensures rtcpPackets == [PictureLossIndication(0, mediaSsrc)]
      ensures this.pliInterval == pliInterval
      ensures lastPliTime == UNIX_EPOCH && writes == []
    {
      rtcpPackets := [PictureLossIndication(0, mediaSsrc)];
      lastPliTime := UNIX_EPOCH;
      this.pliInterval := pliInterval;
      writes := [];
    }

    /** `RateLimitedPli::send` at time `now`. */
    method Send(now: int, writeOk: bool) returns (r: Result<(), SendError>)
      requires Valid()
      modifies this
      ensures Valid()
      ensures (r, lastPliTime) == SendStep(old(lastPliTime), pliInterval, now, writeOk)
      ensures writes == old(writes) + if Due(old(lastPliTime), pliInterval, now) && writeOk then [now] else []
    {
      if now >= lastPliTime {
        var duration := now - lastPliTime;
        if duration > pliInterval {
          if !writeOk {
            return Err(RtcpWriteFailed);
          }
          SpacedSnoc(UNIX_EPOCH, pliInterval, writes, now);
          writes := writes + [now];
          lastPliTime := now;
        }
      }
      return Ok(());
    }
  }
}
