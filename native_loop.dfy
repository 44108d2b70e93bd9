/** The prototype native activity's main loop (src/lib.rs, `main_loop`): it
    waits until both an input queue and a window exist, then pushes recorded
    H.264 packets into the decoder one per frame while reacting to window
    events. Pointers are integers, 0 being null; what the decoder answers is
    passed in with each iteration. */
module NativeLoop {
  import opened Common

  /** `NativeActivityEvent`, reduced to the variants the loops tell apart. */
  datatype ActivityEvent =
    | InputQueueCreated(queue: int)
    | NativeWindowCreated(window: int)
    | NativeWindowResized(window: int)
    | NativeWindowDestroyed(window: int)
    | Destroy
    | OtherEvent

  /** The result of the blocking `recv`. */
  datatype Recv = Msg(event: ActivityEvent) | RecvError

  /** How the wait ends: both handles, `None`, or still waiting when the events
      run out (the source would block). */
  datatype WaitOutcome = Ready(queue: int, window: int) | Closed | Blocked

  /** An event that makes the wait return `None`. */
  predicate Closing(r: Recv) {
    r == RecvError || r == Msg(Destroy) ||
    r == Msg(InputQueueCreated(0)) || r == Msg(NativeWindowCreated(0))
  }

  /** The wait from handles `queue` and `window` over `events`, and how many
      events it takes. */
  function WaitSpec(queue: Option<int>, window: Option<int>, events: seq<Recv>): (r: (WaitOutcome, nat))
    ensures r.1 <= |events|
    ensures r.0.Ready? && (queue.Some? ==> queue.value != 0) && (window.Some? ==> window.value != 0) ==>
      r.0.queue != 0 && r.0.window != 0
    decreases |events|
  {
    if queue.Some? && window.Some? then
      (Ready(queue.value, window.value), 0)
    else if events == [] then
      (Blocked, 0)
    else if Closing(events[0]) then
      (Closed, 1)
    else
      var q := if events[0].Msg? && events[0].event.InputQueueCreated? then Some(events[0].event.queue) else queue;
      var w := if events[0].Msg? && events[0].event.NativeWindowCreated? then Some(events[0].event.window) else window;
      var next := WaitSpec(q, w, events[1..]);
      (next.0, next.1 + 1)
  }

  /** The last input queue (or window) announced in `events`, if any. */
  function LastQueue(events: seq<Recv>): Option<int>
    decreases |events|
  {
    if events == [] then None
    else if events[|events| - 1].Msg? && events[|events| - 1].event.InputQueueCreated? then
      Some(events[|events| - 1].event.queue)
    else LastQueue(events[..|events| - 1])
  }

  function LastWindow(events: seq<Recv>): Option<int>
    decreases |events|
  {
    if events == [] then None
    else if events[|events| - 1].Msg? && events[|events| - 1].event.NativeWindowCreated? then
      Some(events[|events| - 1].event.window)
    else LastWindow(events[..|events| - 1])
  }

  lemma LastQueueSnoc(events: seq<Recv>, e: Recv)
    ensures LastQueue(events + [e]) ==
      if e.Msg? && e.event.InputQueueCreated? then Some(e.event.queue) else LastQueue(events)
    ensures LastWindow(events + [e]) ==
      if e.Msg? && e.event.NativeWindowCreated? then Some(e.event.window) else LastWindow(events)
  {
    assert (events + [e])[..|events|] == events;
  }

  /** The wait returns the handles of the last creation events it took, it
      took no closing event, and a later creation overwrites an earlier one. */
  lemma {:induction false} WaitReadyIsLast(queue: Option<int>, window: Option<int>, events: seq<Recv>, before: seq<Recv>)
    requires LastQueue(before) == queue && LastWindow(before) == window
    ensures var (r, n) := WaitSpec(queue, window, events);
      r.Ready? ==>
        Some(r.queue) == LastQueue(before + events[..n]) && Some(r.window) == LastWindow(before + events[..n]) &&
        forall k :: 0 <= k < n ==> !Closing(events[k])
    decreases |events|
  {
    var (r, n) := WaitSpec(queue, window, events);
    if queue.Some? && window.Some? {
      assert events[..n] == [];
      assert before + events[..n] == before;
    } else if events != [] && !Closing(events[0]) {
      var e := events[0];
      var q := if e.Msg? && e.event.InputQueueCreated? then Some(e.event.queue) else queue;
      var w := if e.Msg? && e.event.NativeWindowCreated? then Some(e.event.window) else window;
      LastQueueSnoc(before, e);
      WaitReadyIsLast(q, w, events[1..], before + [e]);
      var m := WaitSpec(q, w, events[1..]).1;
      if r.Ready? {
        assert before + events[..n] == (before + [e]) + events[1..][..m] by {
          assert events[..n] == [e] + events[1..][..m];
          AppendAssoc(before, [e], events[1..][..m]);
        }
        forall k | 0 <= k < n ensures !Closing(events[k]) {
          if k > 0 {
            assert events[k] == events[1..][k - 1];
          }
        }
      }
    }
  }

  /** The wait returns `None` exactly on its last event, and only on a closing
      one. */
  lemma {:induction false} WaitClosedCause(queue: Option<int>, window: Option<int>, events: seq<Recv>)
    ensures var (r, n) := WaitSpec(queue, window, events);
      r.Closed? ==> 0 < n && Closing(events[n - 1]) && forall k :: 0 <= k < n - 1 ==> !Closing(events[k])
    decreases |events|
  {
    if !(queue.Some? && window.Some?) && events != [] && !Closing(events[0]) {
      var e := events[0];
      var q := if e.Msg? && e.event.InputQueueCreated? then Some(e.event.queue) else queue;
      var w := if e.Msg? && e.event.NativeWindowCreated? then Some(e.event.window) else window;
      WaitClosedCause(q, w, events[1..]);
      var n := WaitSpec(queue, window, events).1;
      forall k | 0 < k < n ensures events[k] == events[1..][k - 1] {
      }
    }
  }

  /** `wait_for_input_queue_and_native_window` over the events it receives. */
  method WaitForInputQueueAndNativeWindow(events: seq<Recv>) returns (r: WaitOutcome, consumed: nat)
    ensures (r, consumed) == WaitSpec(None, None, events)
  {
    var inputQueue: Option<int> := None;
    var nativeWindow: Option<int> := None;
    consumed := 0;
    while inputQueue.None? || nativeWindow.None?
      invariant consumed <= |events|
      invariant WaitSpec(None, None, events) ==
        var rest := WaitSpec(inputQueue, nativeWindow, events[consumed..]); (rest.0, rest.1 + consumed)
      decreases |events| - consumed
    {
      if consumed == |events| {
        return Blocked, consumed;
      }
      var msg := events[consumed];
      assert events[consumed..][1..] == events[consumed + 1..];
      consumed := consumed + 1;
      match msg {
        case RecvError => return Closed, consumed;
        case Msg(event) =>
          match event {
            case InputQueueCreated(q) =>
              if q == 0 {
                return Closed, consumed;
              }
              inputQueue := Some(q);
            case NativeWindowCreated(w) =>
              if w == 0 {
                return Closed, consumed;
              }
              nativeWindow := Some(w);
            case Destroy => return Closed, consumed;
            case NativeWindowResized(_) =>
            case NativeWindowDestroyed(_) =>
            case OtherEvent =>
          }
      }
    }
    r := Ready(inputQueue.value, nativeWindow.value);
  }

  /** The microseconds between two frames at 60 frames per second. */
  const FRAME_TIME: nat := 16666

  /** The result of `try_recv`. */
  datatype TryRecv = Got(event: ActivityEvent) | EmptyQueue | DisconnectedQueue

  /** What one iteration sees: the poll, and what the decoder answers —
      `try_decode` (`None` for an error, otherwise whether the packet was
      taken), `try_render`, and `set_output_surface`. */
  datatype MainTick = MainTick(poll: TryRecv, decoded: Option<bool>, renderOk: bool, surfaceOk: bool)

  /** A call `try_decode(packet, time, end_of_stream)`. */
  datatype DecodeCall = DecodeCall(index: nat, time: int, endOfStream: bool)

  /** The loop's variables, and the calls made on the decoder so far. */
  datatype MainState = MainState(
    window: int,
    time: int,
    packetIndex: nat,
    decodeCalls: seq<DecodeCall>,
    surfaces: seq<int>)

  /** How an iteration ends: go on, `break` (a normal exit), an error out of
      `?`, or the panic of `NonNull::new(0).unwrap()`. */
  datatype LoopEnd = Running | Exit | Error | Panic

  /** One iteration of the loop of `main_loop` over `packets` packets. */
  function MainStep(s: MainState, t: MainTick, packets: nat): (MainState, LoopEnd) {
    match t.poll
    case Got(e) =>
      if e == Destroy || e.NativeWindowDestroyed? then (s, Exit)
      else if (e.NativeWindowCreated? || e.NativeWindowResized?) && e.window != s.window then
        if e.window == 0 then (s, Panic)
        else
          var moved := s.(window := e.window, surfaces := s.surfaces + [e.window]);
          (moved, if t.surfaceOk then Running else Error)
      else (s, Running)
    case DisconnectedQueue => (s, Running)
    case EmptyQueue =>
      if s.packetIndex < packets then
        var call := DecodeCall(s.packetIndex, s.time, s.packetIndex == packets - 1);
        var called := s.(decodeCalls := s.decodeCalls + [call]);
        match t.decoded
        case None => (called, Error)
        case Some(taken) =>
          var next := if taken then called.(time := s.time + FRAME_TIME, packetIndex := s.packetIndex + 1) else called;
          (next, if t.renderOk then Running else Error)
      else (s, if t.renderOk then Running else Error)
  }

  /** The pacing the loop keeps: packet `i` is decoded at time `16666 * i`,
      marked as the end of the stream exactly when it is the last, and no
      packet past the end is attempted; the window is never null. */
  predicate Paced(s: MainState, packets: nat) {
    s.window != 0 && s.time == FRAME_TIME * s.packetIndex && s.packetIndex <= packets &&
    forall k :: 0 <= k < |s.decodeCalls| ==>
      s.decodeCalls[k].index < packets &&
      s.decodeCalls[k].time == FRAME_TIME * s.decodeCalls[k].index &&
      (s.decodeCalls[k].endOfStream <==> s.decodeCalls[k].index == packets - 1)
  }

  /** One iteration keeps the pacing, moves on by at most one packet and only
      when the decoder took it, rebinds the surface only to a new non-null
      window, and ends the loop normally only on `Destroy` or
      `NativeWindowDestroyed`. */
  lemma MainStepKeepsPacing(s: MainState, t: MainTick, packets: nat)
    requires Paced(s, packets)
    ensures var (s', end) := MainStep(s, t, packets);
      (end != Panic ==> Paced(s', packets)) &&
      s'.packetIndex == (if t.poll == EmptyQueue && s.packetIndex < packets && t.decoded == Some(true)
                         then s.packetIndex + 1 else s.packetIndex) &&
      (s'.surfaces != s.surfaces ==>
         t.poll.Got? && s'.surfaces == s.surfaces + [t.poll.event.window] &&
         t.poll.event.window != s.window && t.poll.event.window != 0) &&
      (end == Exit <==> t.poll == Got(Destroy) || (t.poll.Got? && t.poll.event.NativeWindowDestroyed?)) &&
      (t.poll == DisconnectedQueue ==> s' == s && end == Running)
  {
    var (s', end) := MainStep(s, t, packets);
    if t.poll == EmptyQueue && s.packetIndex < packets {
      var call := DecodeCall(s.packetIndex, s.time, s.packetIndex == packets - 1);
      assert s'.decodeCalls == s.decodeCalls + [call];
      forall k | 0 <= k < |s'.decodeCalls|
        ensures s'.decodeCalls[k].index < packets &&
          s'.decodeCalls[k].time == FRAME_TIME * s'.decodeCalls[k].index &&
          (s'.decodeCalls[k].endOfStream <==> s'.decodeCalls[k].index == packets - 1)
      {
        if k < |s.decodeCalls| {
          assert s'.decodeCalls[k] == s.decodeCalls[k];
        }
      }
    }
  }

  /** The loop over the iterations it gets to: the state after them and how it
      ended. */
  function MainRun(s: MainState, ticks: seq<MainTick>, packets: nat): (MainState, LoopEnd)
    decreases |ticks|
  {
    if ticks == [] then (s, Running)
    else
      var (next, end) := MainStep(s, ticks[0], packets);
      if end != Running then (next, end) else MainRun(next, ticks[1..], packets)
  }

  /** Over any run that does not panic the pacing holds throughout: every
      packet handed to the decoder went at its own frame time, with the end of
      the stream flagged on the last packet only. */
  lemma {:induction false} MainRunKeepsPacing(s: MainState, ticks: seq<MainTick>, packets: nat)
    requires Paced(s, packets)
    ensures MainRun(s, ticks, packets).1 != Panic ==> Paced(MainRun(s, ticks, packets).0, packets)
    ensures MainRun(s, ticks, packets).0.packetIndex >= s.packetIndex
    decreases |ticks|
  {
    if ticks != [] {
      MainStepKeepsPacing(s, ticks[0], packets);
      var (next, end) := MainStep(s, ticks[0], packets);
      if end == Running {
        MainRunKeepsPacing(next, ticks[1..], packets);
      }
    }
  }

  /** The decoder loop of `main_loop`, after the wait and the decoder's
      creation (which read their data from assets and are not modelled). */
  class MainLoop {
    const packets: nat
    var nativeWindow: int
    var time: int
    var packetIndex: nat
    /** The calls made on the decoder so far. */
    var decodeCalls: seq<DecodeCall>
    var surfaces: seq<int>

    function State(): MainState
      reads this
    {
      MainState(nativeWindow, time, packetIndex, decodeCalls, surfaces)
    }

    constructor (window: int, packets: nat)
      requires window != 0
      ensures State() == MainState(window, 0, 0, [], []) && this.packets == packets
      ensures Paced(State(), packets)
    {
      this.packets := packets;
      nativeWindow := window;
      time := 0;
      packetIndex := 0;
      decodeCalls := [];
      surfaces := [];
    }

    /** One iteration. */
    method Step(t: MainTick) returns (end: LoopEnd)
      modifies this
      ensures (State(), end) == MainStep(old(State()), t, packets)
    {
      end := Running;
      match t.poll {
        case Got(e) =>
          match e {
            case Destroy => end := Exit;
            case NativeWindowDestroyed(_) => end := Exit;
            case NativeWindowCreated(w) => end := Rebind(w, t.surfaceOk);
            case NativeWindowResized(w) => end := Rebind(w, t.surfaceOk);
            case InputQueueCreated(_) =>
            case OtherEvent =>
          }
        case EmptyQueue =>
          if packetIndex < packets {
            var endOfStream := packetIndex == packets - 1;
            decodeCalls := decodeCalls + [DecodeCall(packetIndex, time, endOfStream)];
            if t.decoded.None? {
              return Error;
            }
            if t.decoded.value {
              time := time + FRAME_TIME;
              packetIndex := packetIndex + 1;
            }
          }
          if !t.renderOk {
            end := Error;
          }
        case DisconnectedQueue =>
      }
    }

    /** A window event: rebinds the output surface when the window differs. */
    method Rebind(w: int, surfaceOk: bool) returns (end: LoopEnd)
      modifies this
      ensures w == old(nativeWindow) ==> end == Running && State() == old(State())
      ensures w != old(nativeWindow) && w == 0 ==> end == Panic && State() == old(State())
      ensures w != old(nativeWindow) && w != 0 ==>
        State() == old(State()).(window := w, surfaces := old(surfaces) + [w]) &&
        end == (if surfaceOk then Running else Error)
    {
      end := Running;
      if w != nativeWindow {
        if w == 0 {
          return Panic;
        }
        nativeWindow := w;
        surfaces := surfaces + [w];
        if !surfaceOk {
          end := Error;
        }
      }
    }

    /** The loop, over the iterations it gets to. */
    method Run(ticks: seq<MainTick>) returns (end: LoopEnd, processed: nat)
      requires Paced(State(), packets)
      modifies this
      ensures processed <= |ticks|
      ensures (State(), end) == MainRun(old(State()), ticks[..processed], packets)
      ensures end == Running ==> processed == |ticks|
      ensures end != Panic ==> Paced(State(), packets)
    {
      processed := 0;
      end := Running;
      while processed < |ticks|
        invariant processed <= |ticks|
        invariant end == Running
        invariant (State(), Running) == MainRun(old(State()), ticks[..processed], packets)
      {
        MainRunSnoc(old(State()), ticks[..processed], ticks[processed], packets);
        assert ticks[..processed + 1] == ticks[..processed] + [ticks[processed]];
        ghost var before := State();
        end := Step(ticks[processed]);
        assert (State(), end) == MainStep(before, ticks[processed], packets);
        processed := processed + 1;
        if end != Running {
          MainRunKeepsPacing(old(State()), ticks[..processed], packets);
          return;
        }
      }
      MainRunKeepsPacing(old(State()), ticks[..processed], packets);
    }
  }

  /** A run that has not ended takes one more iteration at its end. */
  lemma {:induction false} MainRunSnoc(s: MainState, ticks: seq<MainTick>, t: MainTick, packets: nat)
    requires MainRun(s, ticks, packets).1 == Running
    ensures MainRun(s, ticks + [t], packets) == MainStep(MainRun(s, ticks, packets).0, t, packets)
    decreases |ticks|
  {
    if ticks == [] {
      assert [t][1..] == [];
    } else {
      assert (ticks + [t])[1..] == ticks[1..] + [t];
      var (next, end) := MainStep(s, ticks[0], packets);
      MainRunSnoc(next, ticks[1..], t, packets);
    }
  }
}
