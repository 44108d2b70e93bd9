/** The render pump at the end of `start_decoder`
    (app/src/main/rust/src/webrtc/decoder/mod.rs, lines 199-240): it releases
    decoded frames to the surface while there is one, follows the surface
    through the activity's lifecycle, and on leaving tells the feeder task to
    stop. */
module DecoderRender {
  import opened Common
  import opened MediaStatusCodes
  import opened DecoderEvents
  import opened MediaEngineModel

  /** What one iteration sees: whether the peer is still connected, the result of
      `try_recv`, and the answers of the JNI and codec calls it may make. */
  datatype RenderTick = RenderTick(
    connected: bool,      // `peer.connection_state() == Connected`
    poll: Poll,
    attachOk: bool,       // `attach_current_thread` succeeds
    windowOk: bool,       // `NativeWindow::new` returns a window
    surfaceStatus: int,   // status of `set_output_surface`
    dequeued: int,        // what `dequeueOutputBuffer` answers on an empty poll
    releaseStatus: int)   // status of `releaseOutputBuffer`

  /** How an iteration ends. */
  datatype RenderStep = Continue | Break | Fail(error: DecoderError)

  /** The iteration gets to the `SurfaceCreated` arm. */
  predicate SurfaceArrives(t: RenderTick) {
    t.connected && t.poll.Received? && t.poll.event.SurfaceCreated?
  }

  /** The iteration gets past creating the native window for a new surface. */
  predicate CreatesWindow(t: RenderTick) {
    SurfaceArrives(t) && t.attachOk && t.windowOk
  }

  /** The iteration gets to the `SurfaceDestroyed` arm. */
  predicate SurfaceGoes(t: RenderTick) {
    t.connected && t.poll == Received(SurfaceDestroyed)
  }

  /** The iteration releases an output buffer. */
  predicate ReleasesBuffer(t: RenderTick) {
    t.connected && t.poll == Empty
  }

  /** How the iteration ends. */
  function RenderOutcome(t: RenderTick): (o: RenderStep)
    ensures o == Break <==>
      !t.connected || t.poll == Received(MainActivityDestroyed) || t.poll == Disconnected
    ensures o.Fail? <==> SurfaceArrives(t) && !(t.attachOk && t.windowOk && Success(t.surfaceStatus).Ok?)
    ensures SurfaceArrives(t) && !t.attachOk ==> o == Fail(AttachThread)
    ensures SurfaceArrives(t) && t.attachOk && !t.windowOk ==> o == Fail(NativeWindowCreate)
    ensures ReleasesBuffer(t) || SurfaceGoes(t) ==> o == Continue
  {
    if !t.connected then Break
    else match t.poll
      case Received(MainActivityDestroyed) => Break
      case Received(SurfaceCreated(_)) =>
        if !t.attachOk then Fail(AttachThread)
        else if !t.windowOk then Fail(NativeWindowCreate)
        else if Success(t.surfaceStatus).Ok? then Continue
        else Fail(MediaEngine(Success(t.surfaceStatus).error))
      case Received(SurfaceDestroyed) => Continue
      case Disconnected => Break
      case Empty => Continue
  }

  /** `render` after the iteration: set once a new window exists (before the
      surface is rebound), cleared when the surface goes. */
  function RenderAfter(render: bool, t: RenderTick): (r: bool)
    ensures CreatesWindow(t) ==> r
    ensures SurfaceGoes(t) ==> !r
    ensures !CreatesWindow(t) && !SurfaceGoes(t) ==> r == render
  {
    if CreatesWindow(t) then true else if SurfaceGoes(t) then false else render
  }

  /** What a run of iterations amounts to: the `render` arguments of the releases,
      the final `render`, and how the run ended (`Continue` if it did not). */
  datatype PumpSummary = PumpSummary(releases: seq<bool>, render: bool, end: RenderStep)

  function Pump(render: bool, ticks: seq<RenderTick>): PumpSummary
    decreases |ticks|
  {
    if ticks == [] then PumpSummary([], render, Continue)
    else
      var t := ticks[0];
      var o := RenderOutcome(t);
      var next := RenderAfter(render, t);
      if o != Continue then PumpSummary([], next, o)
      else
        var rest := Pump(next, ticks[1..]);
        rest.(releases := (if ReleasesBuffer(t) then [render] else []) + rest.releases)
  }

  /** The summary of `ticks + [t]` from that of `ticks`. */
  lemma {:induction false} PumpSnoc(render: bool, ticks: seq<RenderTick>, t: RenderTick)
    requires Pump(render, ticks).end == Continue
    ensures var s := Pump(render, ticks);
      var o := RenderOutcome(t);
      Pump(render, ticks + [t]) ==
        PumpSummary(s.releases + (if o == Continue && ReleasesBuffer(t) then [s.render] else []),
                    RenderAfter(s.render, t), o)
    decreases |ticks|
  {
    if ticks != [] {
      assert (ticks + [t])[0] == ticks[0] && (ticks + [t])[1..] == ticks[1..] + [t];
      var next := RenderAfter(render, ticks[0]);
      PumpSnoc(next, ticks[1..], t);
      var s1 := Pump(next, ticks[1..]);
      var o := RenderOutcome(t);
      AppendAssoc(if ReleasesBuffer(ticks[0]) then [render] else [], s1.releases,
                       if o == Continue && ReleasesBuffer(t) then [s1.render] else []);
    }
  }


  /** No tick brings a new window. */
  predicate NoNewWindow(ticks: seq<RenderTick>) {
    forall k :: 0 <= k < |ticks| ==> !CreatesWindow(ticks[k])
  }

  /** No tick takes the surface away. */
  predicate SurfaceStays(ticks: seq<RenderTick>) {
    forall k :: 0 <= k < |ticks| ==> !SurfaceGoes(ticks[k])
  }

  /** Without a new window, a pump that is not rendering never renders. */
  lemma {:induction false} NotRenderingWithoutWindow(ticks: seq<RenderTick>)
    requires NoNewWindow(ticks)
    ensures forall k :: 0 <= k < |Pump(false, ticks).releases| ==> !Pump(false, ticks).releases[k]
    ensures !Pump(false, ticks).render
    decreases |ticks|
  {
    if ticks != [] {
      NotRenderingWithoutWindow(ticks[1..]);
    }
  }

  /** While the surface stays, a rendering pump renders every frame it releases. */
  lemma {:induction false} RenderingWhileSurfaceStays(ticks: seq<RenderTick>)
    requires SurfaceStays(ticks)
    ensures forall k :: 0 <= k < |Pump(true, ticks).releases| ==> Pump(true, ticks).releases[k]
    ensures Pump(true, ticks).render
    decreases |ticks|
  {
    if ticks != [] {
      RenderingWhileSurfaceStays(ticks[1..]);
    }
  }

  /** Once the surface is destroyed, every frame released up to the next window
      is dropped, whatever `render` was. */
  lemma SurfaceDestroyedStopsRendering(render: bool, t: RenderTick, after: seq<RenderTick>)
    requires SurfaceGoes(t) && NoNewWindow(after)
    ensures forall k :: 0 <= k < |Pump(render, [t] + after).releases| ==> !Pump(render, [t] + after).releases[k]
  {
    assert ([t] + after)[0] == t && ([t] + after)[1..] == after;
    NotRenderingWithoutWindow(after);
  }

  /** Once a new window is there and bound, every frame released up to the next
      loss of the surface is rendered, whatever `render` was. */
  lemma SurfaceCreatedResumesRendering(render: bool, t: RenderTick, after: seq<RenderTick>)
    requires CreatesWindow(t) && Success(t.surfaceStatus).Ok? && SurfaceStays(after)
    ensures forall k :: 0 <= k < |Pump(render, [t] + after).releases| ==> Pump(render, [t] + after).releases[k]
  {
    assert ([t] + after)[0] == t && ([t] + after)[1..] == after;
    RenderingWhileSurfaceStays(after);
  }

  /** A failed release is only logged: however the codec answers, an empty poll
      goes on with the next iteration. */
  lemma ReleaseFailureIgnored(t: RenderTick)
    requires ReleasesBuffer(t)
    ensures RenderOutcome(t) == Continue && RenderAfter(true, t) && !RenderAfter(false, t)
  {
  }

  /** The value `start_decoder` returns when the pump ends: a break closes the
      application, a failure in the `SurfaceCreated` arm returns its error. */
  function PumpResult(end: RenderStep): (r: Option<DecoderError>)
    ensures end == Continue <==> r.None?
    ensures end == Break ==> r == Some(ApplicationClosed)
    ensures end.Fail? ==> r == Some(end.error)
  {
    match end
    case Continue => None
    case Break => Some(ApplicationClosed)
    case Fail(e) => Some(e)
  }

  /** Whether the exit flag is stored when the pump ends, as written: only after
      the loop, that is on a break; the `?` in the `SurfaceCreated` arm returns
      without it. */
  predicate ExitStoredAsWritten(end: RenderStep) {
    end == Break
  }

  /** Whether the exit flag is stored, corrected: whenever `start_decoder`
      returns, so the feeder task never outlives it. */
  predicate ExitStored(end: RenderStep) {
    end != Continue
  }

  /** As written, a surface whose thread cannot be attached ends `start_decoder`
      with an error while the feeder task is never told to stop. */
  lemma AttachFailureLeavesFeederRunning()
    ensures var t := RenderTick(true, Received(SurfaceCreated(7)), false, true, AMEDIA_OK, -1, AMEDIA_OK);
      var end := Pump(true, [t]).end;
      PumpResult(end) == Some(AttachThread) && !ExitStoredAsWritten(end)
  {
  }

  /** Corrected, whenever the pump ends the feeder is told to stop, and the
      value returned is an error. */
  lemma ExitStoredOnEveryReturn(render: bool, ticks: seq<RenderTick>)
    ensures PumpResult(Pump(render, ticks).end).Some? <==> ExitStored(Pump(render, ticks).end)
    ensures ExitStoredAsWritten(Pump(render, ticks).end) ==> ExitStored(Pump(render, ticks).end)
  {
  }

  class RenderPump {
    var render: bool
    /** The flag the feeder task polls. */
    var exit: bool
    const engine: MediaEngine

    constructor (engine: MediaEngine)
      ensures render && !exit && this.engine == engine
    {
      render := true;
      exit := false;
      this.engine := engine;
    }

    /** One iteration of the loop. */
    method Step(t: RenderTick) returns (o: RenderStep)
      modifies this, engine
      ensures o == RenderOutcome(t)
      ensures render == RenderAfter(old(render), t)
      ensures engine.releases == old(engine.releases) + if ReleasesBuffer(t) then [old(render)] else []
      ensures CreatesWindow(t) && Success(t.surfaceStatus).Ok? ==> engine.surface == Some(t.poll.event.surface)
      ensures !(CreatesWindow(t) && Success(t.surfaceStatus).Ok?) ==> engine.surface == old(engine.surface)
      ensures exit == old(exit) && engine.queued == old(engine.queued)
    {
      if !t.connected {
        return Break;
      }
      match t.poll {
        case Received(event) =>
          match event {
            case MainActivityDestroyed =>
              return Break;
            case SurfaceCreated(surface) =>
              if !t.attachOk {
                return Fail(AttachThread);
              }
              if !t.windowOk {
                return Fail(NativeWindowCreate);
              }
              render := true;
              var bound := engine.SetOutputSurface(surface, t.surfaceStatus);
              if bound.Err? {
                return Fail(MediaEngine(bound.error));
              }
              return Continue;
            case SurfaceDestroyed =>
              render := false;
              return Continue;
          }
        case Disconnected =>
          return Break;
        case Empty =>
          // a failed release is only logged
          var _ := engine.ReleaseOutputBuffer(render, t.dequeued, t.releaseStatus);
          return Continue;
      }
    }

    /** The loop, over the ticks it sees: it stops at the first that does not
        continue. */
    method PumpTicks(ticks: seq<RenderTick>) returns (end: RenderStep, processed: nat)
      modifies this, engine
      ensures processed <= |ticks|
      ensures end == Continue ==> processed == |ticks|
      ensures var s := Pump(old(render), ticks[..processed]);
        end == s.end && render == s.render && engine.releases == old(engine.releases) + s.releases
      ensures exit == old(exit) && engine.queued == old(engine.queued)
    {
      var r0 := render;
      var i := 0;
      while i < |ticks|
        invariant i <= |ticks|
        invariant var s := Pump(r0, ticks[..i]);
          s.end == Continue && render == s.render && engine.releases == old(engine.releases) + s.releases
        invariant exit == old(exit) && engine.queued == old(engine.queued)
      {
        PumpSnoc(r0, ticks[..i], ticks[i]);
        assert ticks[..i + 1] == ticks[..i] + [ticks[i]];
        ghost var s := Pump(r0, ticks[..i]);
        AppendAssoc(old(engine.releases), s.releases,
                         if RenderOutcome(ticks[i]) == Continue && ReleasesBuffer(ticks[i]) then [s.render] else []);
        end := Step(ticks[i]);
        if end != Continue {
          return end, i + 1;
        }
        i := i + 1;
      }
      assert ticks[..i] == ticks;
      return Continue, i;
    }

    /** The end of `start_decoder` as written: the exit flag is stored only after
        a break. */
    method RunAsWritten(ticks: seq<RenderTick>) returns (r: Option<DecoderError>, processed: nat)
      modifies this, engine
      ensures processed <= |ticks|
      ensures var s := Pump(old(render), ticks[..processed]);
        r == PumpResult(s.end) && exit == (old(exit) || ExitStoredAsWritten(s.end)) &&
        render == s.render && engine.releases == old(engine.releases) + s.releases
      ensures r.None? ==> processed == |ticks|
    {
      var end;
      end, processed := PumpTicks(ticks);
      if end == Break {
        exit := true;
      }
      r := PumpResult(end);
    }

    /** The end of `start_decoder`, corrected: the exit flag is stored on every
        return. */
    method Run(ticks: seq<RenderTick>) returns (r: Option<DecoderError>, processed: nat)
      modifies this, engine
      ensures processed <= |ticks|
      ensures var s := Pump(old(render), ticks[..processed]);
        r == PumpResult(s.end) && exit == (old(exit) || ExitStored(s.end)) &&
        render == s.render && engine.releases == old(engine.releases) + s.releases
      ensures r.None? ==> processed == |ticks|
    {
      var end;
      end, processed := PumpTicks(ticks);
      if end != Continue {
        exit := true;
      }
      r := PumpResult(end);
    }
  }
}
