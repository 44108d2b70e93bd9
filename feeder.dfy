/** The feeder task that `start_decoder` spawns
    (app/src/main/rust/src/webrtc/decoder/mod.rs, lines 118-197): it turns
    finished access units into input buffers of the codec. Until it has a
    reference frame (an IDR picture, `nal_unit_type` 5 of Table 7-1 of ITU-T
    H.264) it drops every unit and asks the sender for a key frame; a broken
    stream makes it forget the reference frame again. */
module DecoderFeeder {
  import opened Common
  import opened MediaStatusCodes
  import opened DecoderEvents
  import opened RtcpHelper
  import opened MediaEngineModel

  /** The header of a unit with its four-byte start code is byte 4. */
  predicate IsIdr(nalu: seq<byte>) {
    |nalu| > 4 && NalUnitType(nalu[4]) == NAL_TYPE_IDR
  }

  /** What one iteration of the feeder loop does. */
  datatype FeederAction =
    | Queue              // queue the unit, dequeue a fresh buffer, re-wrap the reader
    | DropAndRequestPli  // send a PLI, re-wrap the reader on the same buffer
    | ResetAndRequestPli // forget the reference frame, finish and re-wrap the reader, send a PLI
    | Nothing            // no state changes
    | IndexOutOfBounds   // `nalu[4]` on a unit of at most four bytes panics

  /** The reference-frame gate and the error arms of the loop. */
  function FeederDecide(hasReferenceFrame: bool, e: TrackEvent): FeederAction {
    match e
    case UnitFinished(nalu) =>
      if hasReferenceFrame then Queue
      else if |nalu| <= 4 then IndexOutOfBounds
      else if NalUnitType(nalu[4]) != NAL_TYPE_IDR then DropAndRequestPli
      else Queue
    case PushFailed(err) =>
      if err == NeedMoreInput then Nothing else ResetAndRequestPli
    case RecvFailed(reason) =>
      if reason in {HeaderParsingError, TrackRemoteReadError, BufferFull} then ResetAndRequestPli
      else Nothing
  }

  /** The gate: a finished unit is queued exactly when the reference frame is
      there or the unit is an IDR picture; before that, a longer unit is
      dropped with a PLI and a unit too short for its header panics. The
      error events reset the stream exactly when `ResetsStream` holds and do
      nothing exactly when `IgnoredEvent` holds. */
  lemma FeederDecideCases(hasReferenceFrame: bool, e: TrackEvent)
    ensures var a := FeederDecide(hasReferenceFrame, e);
      (a == Queue <==> e.UnitFinished? && (hasReferenceFrame || IsIdr(e.nalu))) &&
      (a == DropAndRequestPli <==>
         e.UnitFinished? && !hasReferenceFrame && |e.nalu| > 4 && !IsIdr(e.nalu)) &&
      (a == IndexOutOfBounds <==> e.UnitFinished? && !hasReferenceFrame && |e.nalu| <= 4) &&
      (a == ResetAndRequestPli <==> ResetsStream(e)) &&
      (a == Nothing <==> IgnoredEvent(e))
  {
  }

  /** `has_reference_frame` after the iteration. */
  function FlagAfter(hasReferenceFrame: bool, e: TrackEvent): bool {
    match FeederDecide(hasReferenceFrame, e)
    case Queue => true
    case ResetAndRequestPli => false
    case _ => hasReferenceFrame
  }

  /** Whether the action asks the rate limiter for a PLI. */
  predicate RequestsPli(a: FeederAction) {
    a == DropAndRequestPli || a == ResetAndRequestPli
  }

  /** What a run of iterations amounts to when every PLI write and every dequeue
      succeeds: the units queued, the PLIs requested, the final flag, and whether
      the loop panicked (which ends it). */
  datatype FeedSummary = FeedSummary(queued: seq<seq<byte>>, pliRequests: nat, hasReferenceFrame: bool, panicked: bool)

  function Feed(hasReferenceFrame: bool, events: seq<TrackEvent>): FeedSummary
    decreases |events|
  {
    if events == [] then FeedSummary([], 0, hasReferenceFrame, false)
    else
      var e := events[0];
      var a := FeederDecide(hasReferenceFrame, e);
      if a == IndexOutOfBounds then FeedSummary([], 0, hasReferenceFrame, true)
      else Prepend(QueuedBy(a, e), if RequestsPli(a) then 1 else 0, Feed(FlagAfter(hasReferenceFrame, e), events[1..]))
  }

  /** The unit an iteration that does `a` on `e` queues, if any. */
  function QueuedBy(a: FeederAction, e: TrackEvent): seq<seq<byte>> {
    if a == Queue && e.UnitFinished? then [e.nalu] else []
  }

  /** An iteration that queued `head` and requested `asks` PLIs, then `rest`. */
  function Prepend(head: seq<seq<byte>>, asks: nat, rest: FeedSummary): FeedSummary {
    rest.(queued := head + rest.queued, pliRequests := asks + rest.pliRequests)
  }

  /** The summary of `events + [e]` from that of `events`. */
  lemma {:induction false} FeedSnoc(h: bool, events: seq<TrackEvent>, e: TrackEvent)
    requires !Feed(h, events).panicked
    ensures var s := Feed(h, events);
      var a := FeederDecide(s.hasReferenceFrame, e);
      Feed(h, events + [e]) ==
        if a == IndexOutOfBounds then s.(panicked := true)
        else FeedSummary(s.queued + (if a == Queue then [e.nalu] else []),
                         s.pliRequests + (if RequestsPli(a) then 1 else 0),
                         FlagAfter(s.hasReferenceFrame, e), false)
    decreases |events|
  {
    if events != [] {
      var h1 := FlagAfter(h, events[0]);
      assert (events + [e])[1..] == events[1..] + [e];
      FeedSnoc(h1, events[1..], e);
      var s1 := Feed(h1, events[1..]);
      var a := FeederDecide(s1.hasReferenceFrame, e);
      AppendAssoc(QueuedBy(FeederDecide(h, events[0]), events[0]), s1.queued,
                       if a == Queue then [e.nalu] else []);
    }
  }

  /** Running `xs` then `ys` sums up as `xs` followed by `ys` from the flag `xs`
      left behind. */
  predicate SplitsAt(h: bool, xs: seq<TrackEvent>, ys: seq<TrackEvent>) {
    var s := Feed(h, xs);
    var t := Feed(s.hasReferenceFrame, ys);
    Feed(h, xs + ys) == FeedSummary(s.queued + t.queued, s.pliRequests + t.pliRequests, t.hasReferenceFrame, t.panicked)
  }


  /** Splitting a run: what follows a prefix continues from the flag the prefix
      left behind. */
  lemma {:induction false} FeedAppend(h: bool, xs: seq<TrackEvent>, ys: seq<TrackEvent>)
    requires !Feed(h, xs).panicked
    ensures SplitsAt(h, xs, ys)
    decreases |xs|
  {
    if xs == [] {
      assert xs + ys == ys;
    } else {
      var e := xs[0];
      var a := FeederDecide(h, e);
      var h1 := FlagAfter(h, e);
      FeedAppend(h1, xs[1..], ys);
      var s1 := Feed(h1, xs[1..]);
      var t := Feed(s1.hasReferenceFrame, ys);
      assert (xs + ys)[0] == e && (xs + ys)[1..] == xs[1..] + ys;
      AppendAssoc(QueuedBy(a, e), s1.queued, t.queued);
    }
  }

  /** Without a reference frame and without an IDR unit nothing is queued, and
      the flag stays clear. */
  lemma {:induction false} NoIdrNothingQueued(events: seq<TrackEvent>)
    requires forall k :: 0 <= k < |events| ==> !(events[k].UnitFinished? && IsIdr(events[k].nalu))
    ensures Feed(false, events).queued == []
    ensures !Feed(false, events).hasReferenceFrame
    decreases |events|
  {
    if events != [] {
      NoIdrNothingQueued(events[1..]);
    }
  }

  /** Without a reference frame, the first unit queued is an IDR picture. */
  lemma {:induction false} FirstQueuedIsIdr(events: seq<TrackEvent>)
    requires Feed(false, events).queued != []
    ensures IsIdr(Feed(false, events).queued[0])
    decreases |events|
  {
    var e := events[0];
    if FeederDecide(false, e) != Queue {
      FirstQueuedIsIdr(events[1..]);
    }
  }

  /** Whatever came before, after an event that resets the stream the queued
      units are the ones queued up to it followed by what a fresh gate queues,
      so the first unit queued after a reset is an IDR picture. */
  lemma FirstQueuedAfterResetIsIdr(h: bool, before: seq<TrackEvent>, e: TrackEvent, after: seq<TrackEvent>)
    requires ResetsStream(e) && !Feed(h, before).panicked
    ensures Feed(h, before + [e] + after).queued == Feed(h, before).queued + Feed(false, after).queued
    ensures Feed(false, after).queued != [] ==> IsIdr(Feed(false, after).queued[0])
  {
    var upTo := before + [e];
    FeedSnoc(h, before, e);
    assert Feed(h, upTo).queued == Feed(h, before).queued && !Feed(h, upTo).hasReferenceFrame;
    FeedAppend(h, upTo, after);
    if Feed(false, after).queued != [] {
      FirstQueuedIsIdr(after);
    }
  }

  /** The units among the events. */
  function Units(events: seq<TrackEvent>): seq<seq<byte>>
    decreases |events|
  {
    if events == [] then []
    else (if events[0].UnitFinished? then [events[0].nalu] else []) + Units(events[1..])
  }

  /** Once the reference frame is there and the stream is not reset, every unit
      is queued whatever its type, no PLI is requested and the flag stays set. */
  lemma {:induction false} ReferenceQueuesEverything(events: seq<TrackEvent>)
    requires forall k :: 0 <= k < |events| ==> !ResetsStream(events[k])
    ensures Feed(true, events) == FeedSummary(Units(events), 0, true, false)
    decreases |events|
  {
    if events != [] {
      ReferenceQueuesEverything(events[1..]);
    }
  }

  /** What the codec and the PLI writer answer during one iteration. */
  datatype StepInputs = StepInputs(
    now: int,                 // the clock when a PLI is sent
    pliWriteOk: bool,         // whether `write_rtcp` succeeds
    queueStatus: int,         // the status of `queue_input_buffer`
    nextIndex: int,           // the index `dequeue_input_buffer` answers
    nextBufferPresent: bool)  // whether that buffer's pointer is non-null

  /** Every answer from outside lets the iteration go on: the PLI write and
      the next dequeue succeed. */
  predicate AllAnswersOk(io: StepInputs) {
    io.pliWriteOk && io.nextIndex != -1 && io.nextBufferPresent
  }

  /** How an iteration ends: the loop goes on, the feeder task returns an error through
      `?`, or it panics. */
  datatype StepOutcome = Continue | Stop(error: DecoderError) | Panic

  class Feeder {
    var hasReferenceFrame: bool
    const pli: RateLimitedPli
    const engine: MediaEngine
    /** The input buffer the reader writes into. */
    var inputBuffer: int
    /** How often the reader was wrapped around an input buffer. */
    var wraps: nat
    /** The PLIs asked of the rate limiter so far. */
    ghost var pliRequests: nat

    ghost predicate Valid()
      reads this, pli
    {
      pli.Valid() && pli.pliInterval == PLI_INTERVAL
    }

    constructor (engine: MediaEngine, mediaSsrc: int, buffer: int)
      ensures Valid() && fresh(pli)
      ensures pli.lastPliTime == UNIX_EPOCH && pli.rtcpPackets == [PictureLossIndication(0, mediaSsrc)]
      ensures this.engine == engine && inputBuffer == buffer
      ensures !hasReferenceFrame && wraps == 1 && pliRequests == 0
    {
      pli := new RateLimitedPli(mediaSsrc, PLI_INTERVAL);
      this.engine := engine;
      hasReferenceFrame := false;
      inputBuffer := buffer;
      wraps := 1;
      pliRequests := 0;
    }

    /** The start of the feeder task: the limiter, the clear flag and the first input
        buffer, whose dequeue failing ends the feeder task. */
    static method Start(engine: MediaEngine, mediaSsrc: int, index: int, bufferPresent: bool)
      returns (r: Result<Feeder, DecoderError>)
      ensures index == -1 ==> r == Err(MediaEngine(NoAvailableBuffer))
      ensures index != -1 && !bufferPresent ==> r == Err(MediaEngine(AllocationError))
      ensures r.Ok? <==> index != -1 && bufferPresent
      ensures r.Ok? ==>
        fresh(r.value) && fresh(r.value.pli) && r.value.Valid() &&
        r.value.engine == engine && r.value.inputBuffer == index &&
        !r.value.hasReferenceFrame && r.value.pliRequests == 0
    {
      var buffer := engine.DequeueInputBuffer(index, bufferPresent);
      if buffer.Err? {
        return Err(MediaEngine(buffer.error));
      }
      var feeder := new Feeder(engine, mediaSsrc, buffer.value);
      return Ok(feeder);
    }

    /** `pli.send(&peer).await?`. */
    method RequestPli(now: int, writeOk: bool) returns (r: Result<(), SendError>)
      requires Valid()
      modifies pli, this
      ensures Valid()
      ensures (r, pli.lastPliTime) == SendStep(old(pli.lastPliTime), PLI_INTERVAL, now, writeOk)
      ensures pliRequests == old(pliRequests) + 1
      ensures hasReferenceFrame == old(hasReferenceFrame) && inputBuffer == old(inputBuffer) && wraps == old(wraps)
    {
      r := pli.Send(now, writeOk);
      pliRequests := pliRequests + 1;
    }

    /** One iteration of the loop. */
    method Step(e: TrackEvent, io: StepInputs) returns (r: StepOutcome)
      requires Valid()
      modifies this, pli, engine
      ensures Valid()
      ensures var a := FeederDecide(old(hasReferenceFrame), e);
        var sent := SendStep(old(pli.lastPliTime), PLI_INTERVAL, io.now, io.pliWriteOk);
        var dequeueOk := io.nextIndex != -1 && io.nextBufferPresent;
        hasReferenceFrame == FlagAfter(old(hasReferenceFrame), e) &&
        engine.queued == old(engine.queued) + (if a == Queue then [e.nalu] else []) &&
        pliRequests == old(pliRequests) + (if RequestsPli(a) then 1 else 0) &&
        pli.lastPliTime == (if RequestsPli(a) then sent.1 else old(pli.lastPliTime)) &&
        (r == Panic <==> a == IndexOutOfBounds) &&
        (r == Stop(RtcpSend) <==> RequestsPli(a) && sent.0.Err?) &&
        (RequestsPli(a) && sent.0.Ok? ==> r == Continue) &&
        (a == Queue ==>
           (r == Continue <==> dequeueOk) &&
           (io.nextIndex == -1 ==> r == Stop(MediaEngine(NoAvailableBuffer))) &&
           (io.nextIndex != -1 && !io.nextBufferPresent ==> r == Stop(MediaEngine(AllocationError)))) &&
        (a == Nothing ==> r == Continue) &&
        inputBuffer == (if a == Queue && dequeueOk then io.nextIndex else old(inputBuffer)) &&
        wraps == old(wraps) + (if (a == Queue && dequeueOk) || a == ResetAndRequestPli ||
                                  (a == DropAndRequestPli && sent.0.Ok?) then 1 else 0)
      ensures engine.releases == old(engine.releases) && engine.surface == old(engine.surface)
    {
      var a := FeederDecide(hasReferenceFrame, e);
      match e {
        case UnitFinished(nalu) =>
          if !hasReferenceFrame {
            if |nalu| <= 4 {
              return Panic;
            }
            if NalUnitType(nalu[4]) != NAL_TYPE_IDR {
              var sent := RequestPli(io.now, io.pliWriteOk);
              if sent.Err? {
                return Stop(RtcpSend);
              }
              wraps := wraps + 1;
              return Continue;
            } else {
              hasReferenceFrame := true;
            }
          }
          // a failed queue is only logged
          var _ := engine.QueueInputBuffer(nalu, io.queueStatus);
          var next := engine.DequeueInputBuffer(io.nextIndex, io.nextBufferPresent);
          if next.Err? {
            return Stop(MediaEngine(next.error));
          }
          inputBuffer := next.value;
          wraps := wraps + 1;
          return Continue;
        case PushFailed(err) =>
          if err == NeedMoreInput {
            return Continue;
          }
          hasReferenceFrame := false;
          wraps := wraps + 1;
          var sent := RequestPli(io.now, io.pliWriteOk);
          if sent.Err? {
            return Stop(RtcpSend);
          }
          return Continue;
        case RecvFailed(reason) =>
          if reason in {HeaderParsingError, TrackRemoteReadError, BufferFull} {
            hasReferenceFrame := false;
            wraps := wraps + 1;
            var sent := RequestPli(io.now, io.pliWriteOk);
            if sent.Err? {
              return Stop(RtcpSend);
            }
          }
          return Continue;
      }
    }

    /** What the loop relies on of one iteration. */
    method Iteration(e: TrackEvent, io: StepInputs) returns (r: StepOutcome)
      requires Valid()
      modifies this, pli, engine
      ensures Valid()
      ensures var a := FeederDecide(old(hasReferenceFrame), e);
        hasReferenceFrame == FlagAfter(old(hasReferenceFrame), e) &&
        engine.queued == old(engine.queued) + (if a == Queue then [e.nalu] else []) &&
        pliRequests == old(pliRequests) + (if RequestsPli(a) then 1 else 0) &&
        (r == Panic <==> a == IndexOutOfBounds) &&
        (AllAnswersOk(io) ==> r == Continue || r == Panic)
      ensures engine.releases == old(engine.releases) && engine.surface == old(engine.surface)
    {
      r := Step(e, io);
    }

    /** The loop, over the events it sees before the exit flag is raised: it ends
        early only by an error or a panic, and up to where it ended it has queued,
        requested and set what `Feed` says. */
    method Run(events: seq<TrackEvent>, io: seq<StepInputs>) returns (r: StepOutcome, processed: nat)
      requires Valid() && |io| == |events|
      modifies this, pli, engine
      ensures Valid()
      ensures processed <= |events|
      ensures r == Continue ==> processed == |events|
      ensures (forall k :: 0 <= k < |io| ==> AllAnswersOk(io[k])) ==> r == Continue || r == Panic
      ensures r == Panic <==> Feed(old(hasReferenceFrame), events[..processed]).panicked
      ensures var s := Feed(old(hasReferenceFrame), events[..processed]);
        engine.queued == old(engine.queued) + s.queued &&
        pliRequests == old(pliRequests) + s.pliRequests &&
        hasReferenceFrame == s.hasReferenceFrame
      ensures engine.releases == old(engine.releases) && engine.surface == old(engine.surface)
    {
      var h0 := hasReferenceFrame;
      var i := 0;
      while i < |events|
        invariant Valid()
        invariant i <= |events|
        invariant !Feed(h0, events[..i]).panicked
        invariant var s := Feed(h0, events[..i]);
          engine.queued == old(engine.queued) + s.queued &&
          pliRequests == old(pliRequests) + s.pliRequests &&
          hasReferenceFrame == s.hasReferenceFrame
        invariant engine.releases == old(engine.releases) && engine.surface == old(engine.surface)
      {
        FeedSnoc(h0, events[..i], events[i]);
        assert events[..i + 1] == events[..i] + [events[i]];
        ghost var s := Feed(h0, events[..i]);
        ghost var a := FeederDecide(s.hasReferenceFrame, events[i]);
        AppendAssoc(old(engine.queued), s.queued, if a == Queue then [events[i].nalu] else []);
        r := Iteration(events[i], io[i]);
        if r != Continue {
          return r, i + 1;
        }
        i := i + 1;
      }
      assert events[..i] == events;
      return Continue, i;
    }
  }
}
