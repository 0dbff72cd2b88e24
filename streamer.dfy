/**
 * WebcamStreamer: one inbound link that accepts a single peer and decodes its
 * frames into the hand-off slot, one outbound link that connects (retrying on
 * refusal) and sends captured frames, and the display loop that drains the
 * slot. The three share the `running` flag.
 *
 * The links and the display loop run on their own threads in the source.
 * Here each is a method driven by a trace: the results of its own blocking
 * calls (recv, connect, capture and sendall, waitKey) in order, interleaved
 * with `StopRequested`, which stands for another thread clearing `running`
 * (the signal handler or the quit key) between two of those calls.
 */
module Streamer {
  import opened Wrappers
  import opened Framing
  import opened Decoder
  import opened Handoff

  /** A frame as it travels: serialisation is not modelled, so a frame is its payload bytes. */
  type Frame = Payload

  /** The command-line configuration. */
  datatype Config = Config(receivePort: int, sendPort: int, sendToIp: string)

  /** The defaults: receive on port 5000, send to port 5001 on the local host. */
  const DefaultConfig := Config(5000, 5001, "127.0.0.1")

  datatype StartupError = PortsEqual | CameraUnavailable

  /** The check the entry point makes before anything is constructed. */
  function CheckPorts(cfg: Config): (r: Result<Config, StartupError>)
    ensures r.Ok? <==> cfg.receivePort != cfg.sendPort
    ensures r.Ok? ==> r.value == cfg
    ensures r.Err? ==> r.error == PortsEqual
  {
    if cfg.receivePort == cfg.sendPort then Err(PortsEqual) else Ok(cfg)
  }

  /** A resource the streamer owns: not created yet, open, or released. */
  datatype Handle = Absent | Open | Released

  /**
   * What cleanup does to one resource: an open one is released, one that was
   * never created is left alone, and releasing again changes nothing.
   */
  function Release(h: Handle): (r: Handle)
    ensures r != Open
    ensures h != Open ==> r == h
  {
    if h == Open then Released else h
  }

  /** The state of one link (Idle: its thread has not started). */
  datatype LinkState = Idle | Connecting | Streaming | Closed

  /** A step of a link's environment: its next I/O result, or another thread clearing `running`. */
  datatype Event<R> = Io(result: R) | StopRequested

  /** What one recv of up to 4096 bytes brings: bytes, or a reset, broken pipe or other error. */
  datatype RecvResult = Chunk(bytes: seq<byte>) | ConnectionLost

  /** What one connect attempt does. */
  datatype ConnectResult = Refused | ConnectFailed | Connected

  /** One capture-and-send cycle: the camera gives no frame, or a frame that the send delivers or not. */
  datatype CaptureResult = CaptureFailed | Captured(frame: Frame, sendOk: bool)

  /** Between two display iterations the receiving thread may put a frame; an iteration ends with a key poll. */
  datatype DisplayResult = Arrived(frame: Frame) | Key(code: int)

  predicate NoStop<R>(events: seq<Event<R>>) {
    forall k :: 0 <= k < |events| ==> !events[k].StopRequested?
  }

  lemma PrefixAppend<T>(d: seq<T>, f: seq<T>, n: nat)
    requires n <= |f|
    ensures d + f[..n] <= d + f
    ensures n > 0 ==> (d + f[..n])[|d| + n - 1] == f[n - 1]
    ensures n == |f| ==> d + f[..n] == d + f
  {
    assert f[..n] <= f;
    assert n == |f| ==> f[..n] == f;
  }

  /** Where the first stop request of a trace is, or its length if there is none. */
  function FirstStop<R>(events: seq<Event<R>>): (i: nat)
    ensures i <= |events|
  {
    if events == [] then 0
    else if events[0].StopRequested? then 0
    else 1 + FirstStop(events[1..])
  }

  /** Every event before the first stop is not one, and the first stop is one. */
  lemma {:induction false} FirstStopSpec<R>(events: seq<Event<R>>)
    ensures forall k :: 0 <= k < FirstStop(events) ==> !events[k].StopRequested?
    ensures FirstStop(events) < |events| ==> events[FirstStop(events)].StopRequested?
  {
    if events != [] && !events[0].StopRequested? {
      var tail := events[1..];
      FirstStopSpec(tail);
      forall k | 1 <= k < FirstStop(events)
        ensures !events[k].StopRequested?
      {
        assert events[k] == tail[k - 1];
      }
    }
  }

  /** The link has gone past i + 1 events without a stop exactly when it had gone past i and event i is not one. */
  lemma FirstStopStep<R>(events: seq<Event<R>>, i: nat)
    requires i < |events|
    ensures i + 1 <= FirstStop(events) <==> i <= FirstStop(events) && !events[i].StopRequested?
  {
    FirstStopSpec(events);
  }

  /** A prefix holds no stop exactly when it ends at or before the first stop. */
  lemma NoStopFirstStop<R>(events: seq<Event<R>>, n: nat)
    requires n <= |events|
    ensures NoStop(events[..n]) <==> n <= FirstStop(events)
  {
    FirstStopSpec(events);
    if n > FirstStop(events) {
      assert events[..n][FirstStop(events)] == events[FirstStop(events)];
    }
  }

  lemma NoStopSnoc<R>(events: seq<Event<R>>, i: nat)
    requires i < |events|
    ensures NoStop(events[..i + 1]) <==> NoStop(events[..i]) && !events[i].StopRequested?
  {
    assert events[..i + 1] == events[..i] + [events[i]];
  }

  function ChunkBytes(e: Event<RecvResult>): seq<byte> {
    if e.Io? && e.result.Chunk? then e.result.bytes else []
  }

  /** The bytes the peer sent in the chunks of a receive trace. */
  function Bytes(events: seq<Event<RecvResult>>): seq<byte>
  {
    if events == [] then [] else Bytes(events[..|events| - 1]) + ChunkBytes(events[|events| - 1])
  }

  lemma BytesSnoc(events: seq<Event<RecvResult>>, i: nat)
    requires i < |events|
    ensures Bytes(events[..i + 1]) == Bytes(events[..i]) + ChunkBytes(events[i])
  {
    assert events[..i + 1][..i] == events[..i];
  }

  /** The newest of the frames xs, or `before` when there are none. */
  function Latest<T>(xs: seq<T>, before: Option<T>): Option<T>
  {
    if xs == [] then before else Some(xs[|xs| - 1])
  }

  lemma LatestAppend<T>(a: seq<T>, b: seq<T>, before: Option<T>)
    ensures Latest(a + b, before) == Latest(b, Latest(a, before))
  {
  }

  /**
   * What the receiving link keeps true between two recv calls: the decoder
   * has seen the bytes of the first `consumed` events and handed out
   * `delivered`; the frames put into the slot are a prefix of those, all of
   * them while `running` holds; after a stop the frames decoded before it
   * stay put, and the link ends early only on a lost connection or once one
   * more frame has been put.
   */
  ghost predicate ReceiveInvariant(events: seq<Event<RecvResult>>, consumed: nat, wasRunning: bool, running: bool,
                                   done: bool, stream: seq<byte>, delivered: seq<Frame>, received: seq<Frame>, cut: nat)
  {
    consumed <= |events| &&
    stream == Bytes(events[..consumed]) &&
    Parse(stream).frames == delivered &&
    received <= delivered &&
    (running <==> wasRunning && consumed <= FirstStop(events)) &&
    (!done || running ==> received == delivered) &&
    (!wasRunning ==> done && consumed == 0 && received == []) &&
    (wasRunning && !running ==>
       FirstStop(events) < consumed && cut == |Parse(Bytes(events[..FirstStop(events)])).frames| &&
       cut <= |received| <= cut + 1 && (!done ==> |received| == cut)) &&
    (consumed > 0 && events[consumed - 1] == Io(ConnectionLost) ==> done) &&
    (wasRunning && done ==>
       consumed > 0 && (events[consumed - 1] == Io(ConnectionLost) || (!running && |received| == cut + 1)))
  }

  /**
   * Where the receiving link stops: no lost connection before the last event
   * it read, none at all while it goes on, and after a stop nothing is
   * decoded until the recv whose message gives the one last put.
   */
  ghost predicate ReceiveEnds(events: seq<Event<RecvResult>>, consumed: nat, wasRunning: bool, running: bool,
                              done: bool, delivered: seq<Frame>, received: seq<Frame>, cut: nat)
  {
    consumed <= |events| &&
    (forall k :: 0 <= k < consumed - 1 ==> events[k] != Io(ConnectionLost)) &&
    (!done ==> forall k :: 0 <= k < consumed ==> events[k] != Io(ConnectionLost)) &&
    (wasRunning && !running && (!done || |received| == cut) ==> |delivered| == cut) &&
    (wasRunning && !running && consumed > 0 && events[consumed - 1] == Io(ConnectionLost) ==> |received| == cut) &&
    (wasRunning && !running && done && consumed > 0 && events[consumed - 1] != Io(ConnectionLost) ==>
       |Parse(Bytes(events[..consumed - 1])).frames| == cut)
  }

  /** A stop request keeps the link going, and from then on nothing new may be decoded before the last put. */
  lemma ReceiveStopEnds(events: seq<Event<RecvResult>>, consumed: nat, wasRunning: bool, running: bool,
                        delivered: seq<Frame>, received: seq<Frame>, cut: nat)
    requires ReceiveEnds(events, consumed, wasRunning, running, false, delivered, received, cut)
    requires consumed < |events| && events[consumed] == StopRequested
    requires running ==> received == delivered
    ensures ReceiveEnds(events, consumed + 1, wasRunning, false, false, delivered, received,
                        if running then |received| else cut)
  {
  }

  /** A lost connection is the last event the link reads. */
  lemma ReceiveLostEnds(events: seq<Event<RecvResult>>, consumed: nat, wasRunning: bool, running: bool,
                        delivered: seq<Frame>, received: seq<Frame>, cut: nat)
    requires ReceiveEnds(events, consumed, wasRunning, running, false, delivered, received, cut)
    requires consumed < |events| && events[consumed] == Io(ConnectionLost)
    requires wasRunning && !running ==> |received| == cut
    ensures ReceiveEnds(events, consumed + 1, wasRunning, running, true, delivered, received, cut)
  {
  }

  /** After a stop, the chunk that completes a message is the last event the link reads. */
  lemma ReceiveChunkEnds(events: seq<Event<RecvResult>>, consumed: nat, wasRunning: bool, running: bool,
                         delivered: seq<Frame>, received: seq<Frame>, cut: nat, frames: seq<Frame>, put: nat)
    requires ReceiveEnds(events, consumed, wasRunning, running, false, delivered, received, cut)
    requires consumed < |events| && events[consumed].Io? && events[consumed].result.Chunk?
    requires Parse(Bytes(events[..consumed])).frames == delivered
    requires |received| <= |delivered| && (wasRunning && !running ==> cut <= |received|)
    requires put == if running then |frames| else if frames == [] then 0 else 1
    ensures ReceiveEnds(events, consumed + 1, wasRunning, running, put > 0 && !running,
                        delivered + frames, received + frames[..put], cut)
  {
  }

  /** A stop request: the flag is cleared and the count of frames decoded so far is kept. */
  lemma ReceiveStop(events: seq<Event<RecvResult>>, consumed: nat, wasRunning: bool, running: bool,
                    stream: seq<byte>, delivered: seq<Frame>, received: seq<Frame>, cut: nat)
    requires ReceiveInvariant(events, consumed, wasRunning, running, false, stream, delivered, received, cut)
    requires consumed < |events| && events[consumed] == StopRequested
    ensures ReceiveInvariant(events, consumed + 1, wasRunning, false, false, stream, delivered, received,
                             if running then |received| else cut)
  {
    FirstStopStep(events, consumed);
    BytesSnoc(events, consumed);
    assert stream + [] == stream;
  }

  /** The connection drops: the link ends with what it has. */
  lemma ReceiveLost(events: seq<Event<RecvResult>>, consumed: nat, wasRunning: bool, running: bool,
                    stream: seq<byte>, delivered: seq<Frame>, received: seq<Frame>, cut: nat)
    requires ReceiveInvariant(events, consumed, wasRunning, running, false, stream, delivered, received, cut)
    requires consumed < |events| && events[consumed] == Io(ConnectionLost)
    ensures ReceiveInvariant(events, consumed + 1, wasRunning, running, true, stream, delivered, received, cut)
  {
    FirstStopStep(events, consumed);
    BytesSnoc(events, consumed);
    assert stream + [] == stream;
  }

  /** A chunk arrives: the decoder completes `frames`, of which the first `put` go into the slot. */
  lemma ReceiveChunk(events: seq<Event<RecvResult>>, consumed: nat, wasRunning: bool, running: bool,
                     stream: seq<byte>, delivered: seq<Frame>, received: seq<Frame>, cut: nat,
                     frames: seq<Frame>, put: nat)
    requires ReceiveInvariant(events, consumed, wasRunning, running, false, stream, delivered, received, cut)
    requires consumed < |events| && events[consumed].Io? && events[consumed].result.Chunk?
    requires Parse(stream + events[consumed].result.bytes).frames == delivered + frames
    requires put == if running then |frames| else if frames == [] then 0 else 1
    ensures ReceiveInvariant(events, consumed + 1, wasRunning, running, put > 0 && !running,
                             stream + events[consumed].result.bytes, delivered + frames, received + frames[..put], cut)
  {
    FirstStopStep(events, consumed);
    BytesSnoc(events, consumed);
    PrefixAppend(received, frames, put);
  }

  /** What the link has done when its loop ends, by the trace it went through. */
  lemma ReceiveOutcome(events: seq<Event<RecvResult>>, consumed: nat, wasRunning: bool, running: bool,
                       done: bool, stream: seq<byte>, delivered: seq<Frame>, received: seq<Frame>, cut: nat)
    requires ReceiveInvariant(events, consumed, wasRunning, running, done, stream, delivered, received, cut)
    requires ReceiveEnds(events, consumed, wasRunning, running, done, delivered, received, cut)
    ensures running <==> wasRunning && NoStop(events[..consumed])
    ensures received <= Parse(Bytes(events[..consumed])).frames
    ensures wasRunning && NoStop(events[..consumed]) ==> received == Parse(Bytes(events[..consumed])).frames
    ensures wasRunning && !running ==>
              FirstStop(events) < consumed &&
              |Parse(Bytes(events[..FirstStop(events)])).frames| <= |received| <=
              |Parse(Bytes(events[..FirstStop(events)])).frames| + 1
    ensures wasRunning && done ==>
              consumed > 0 &&
              (events[consumed - 1] == Io(ConnectionLost) ||
               (!running && |received| == |Parse(Bytes(events[..FirstStop(events)])).frames| + 1))
    ensures forall k :: 0 <= k < consumed - 1 ==> events[k] != Io(ConnectionLost)
    ensures !done ==> forall k :: 0 <= k < consumed ==> events[k] != Io(ConnectionLost)
    ensures wasRunning && !running && |received| == |Parse(Bytes(events[..FirstStop(events)])).frames| ==>
              |Parse(Bytes(events[..consumed])).frames| == |received|
    ensures wasRunning && !running && |received| == |Parse(Bytes(events[..FirstStop(events)])).frames| + 1 ==>
              done && consumed > 0 && |Parse(Bytes(events[..consumed - 1])).frames| == |received| - 1
  {
    NoStopFirstStop(events, consumed);
  }

  /** A display step that clears `running`: a stop request or the quit key. */
  predicate Halts(e: Event<DisplayResult>) {
    e.StopRequested? || (e.Io? && e.result.Key? && IsQuitKey(e.result.code))
  }

  lemma NoHaltSnoc(events: seq<Event<DisplayResult>>, i: nat)
    requires i < |events|
    ensures NoStop(events[..i + 1]) && NoQuit(events[..i + 1]) <==>
            NoStop(events[..i]) && NoQuit(events[..i]) && !Halts(events[i])
    ensures Arrivals(events[..i + 1]) ==
            Arrivals(events[..i]) + (if events[i].Io? && events[i].result.Arrived? then [events[i].result.frame] else [])
  {
    assert events[..i + 1] == events[..i] + [events[i]];
    assert events[..i + 1][..i] == events[..i];
  }

  /** What the display has reached: the frame held in the slot and the frames shown, in order. */
  datatype Screen = Screen(held: Option<Frame>, shown: seq<Frame>)

  /**
   * One display event applied to the screen: a put by the receiving thread
   * replaces the held frame; a key poll first takes the held frame, if any,
   * and shows it; a stop request changes neither.
   */
  function Show(s: Screen, e: Event<DisplayResult>): Screen
  {
    match e
    case Io(Arrived(frame)) => Screen(Some(frame), s.shown)
    case Io(Key(_)) => Screen(None, s.shown + Held(s.held))
    case StopRequested => s
  }

  /** The reference display: the events of a trace applied in order to a slot that holds `before`. */
  function Replay(before: Option<Frame>, events: seq<Event<DisplayResult>>): Screen
  {
    if events == [] then Screen(before, [])
    else Show(Replay(before, events[..|events| - 1]), events[|events| - 1])
  }

  /**
   * The reference display never invents, repeats or reorders a frame: what
   * it has shown, followed by what it still holds, is a subsequence of the
   * frames offered (the one held at the start, then each frame put).
   */
  lemma {:induction false} ReplayInOrder(before: Option<Frame>, events: seq<Event<DisplayResult>>)
    ensures IsSubsequence(Replay(before, events).shown + Held(Replay(before, events).held),
                          Held(before) + Arrivals(events))
    decreases |events|
  {
    if events == [] {
      assert Replay(before, events).shown + Held(before) == Held(before) + Arrivals(events);
    } else {
      var init := events[..|events| - 1];
      var s := Replay(before, init);
      var offered := Held(before) + Arrivals(init);
      ReplayInOrder(before, init);
      match events[|events| - 1]
      case Io(Arrived(frame)) =>
        if s.held.Some? {
          SubsequenceDropLast(s.shown, s.held.value, offered);
        } else {
          assert s.shown + Held(s.held) == s.shown;
        }
        SubsequenceExtend(s.shown, offered, frame);
        SeqAssoc(Held(before), Arrivals(init), [frame]);
      case Io(Key(_)) =>
        assert s.shown + Held(s.held) + Held(None) == s.shown + Held(s.held);
        assert Arrivals(events) == Arrivals(init) + [];
        assert Arrivals(init) + [] == Arrivals(init);
      case StopRequested =>
        assert Arrivals(events) == Arrivals(init) + [];
        assert Arrivals(init) + [] == Arrivals(init);
    }
  }

  /**
   * What the display loop keeps true: it runs until the first stop or quit
   * key, which is the last event it consumed once it has stopped, and the
   * slot and the frames shown are those of the reference display.
   */
  ghost predicate DisplayInvariant(events: seq<Event<DisplayResult>>, consumed: nat, wasRunning: bool, running: bool,
                                   before: Option<Frame>, shown: seq<Frame>, item: Option<Frame>)
  {
    consumed <= |events| &&
    (running <==> wasRunning && NoStop(events[..consumed]) && NoQuit(events[..consumed])) &&
    (wasRunning && !running ==>
       0 < consumed && Halts(events[consumed - 1]) &&
       NoStop(events[..consumed - 1]) && NoQuit(events[..consumed - 1])) &&
    Replay(before, events[..consumed]) == Screen(item, shown)
  }

  /** One event consumed while running moves the display as `Show` does, and halts on a stop or the quit key. */
  lemma DisplayStep(events: seq<Event<DisplayResult>>, consumed: nat, wasRunning: bool,
                    before: Option<Frame>, shown: seq<Frame>, item: Option<Frame>)
    requires DisplayInvariant(events, consumed, wasRunning, true, before, shown, item)
    requires consumed < |events|
    ensures DisplayInvariant(events, consumed + 1, wasRunning, !Halts(events[consumed]), before,
                             Show(Screen(item, shown), events[consumed]).shown,
                             Show(Screen(item, shown), events[consumed]).held)
  {
    NoHaltSnoc(events, consumed);
    assert events[..consumed + 1][..consumed] == events[..consumed];
  }

  /** What the display loop has shown when it ends. */
  lemma DisplayOutcome(events: seq<Event<DisplayResult>>, consumed: nat, wasRunning: bool, running: bool,
                       before: Option<Frame>, shown: seq<Frame>, item: Option<Frame>)
    requires DisplayInvariant(events, consumed, wasRunning, running, before, shown, item)
    ensures IsSubsequence(shown, Held(before) + Arrivals(events[..consumed]))
  {
    ReplayInOrder(before, events[..consumed]);
    if item.Some? {
      SubsequenceDropLast(shown, item.value, Held(before) + Arrivals(events[..consumed]));
    } else {
      assert shown + Held(item) == shown;
    }
  }

  /**
   * What the streaming loop keeps true: the frames sent are the captures at
   * the front of the trace, all delivered; at most one more capture was used
   * up, and only if it failed or a stop had been seen; it runs until the
   * first stop.
   */
  ghost predicate StreamInvariant(captures: seq<Event<CaptureResult>>, consumed: nat, wasRunning: bool, running: bool,
                                  done: bool, frames: seq<Frame>)
  {
    |frames| <= consumed <= |captures| &&
    Encodable(frames) &&
    (forall k :: 0 <= k < |frames| ==> captures[k] == Io(Captured(frames[k], true))) &&
    (consumed == |frames| || (consumed == |frames| + 1 && !Delivers(captures[|frames|]))) &&
    (consumed == |frames| + 1 <==> done || (wasRunning && !running)) &&
    (!wasRunning ==> consumed == 0) &&
    (running <==> wasRunning && NoStop(captures[..consumed]))
  }

  /** A stop request, a failed capture or a failed send: nothing more is sent. */
  lemma StreamHalt(captures: seq<Event<CaptureResult>>, consumed: nat, wasRunning: bool, running: bool,
                   frames: seq<Frame>)
    requires StreamInvariant(captures, consumed, wasRunning, running, false, frames)
    requires running && consumed < |captures| && !Delivers(captures[consumed])
    ensures StreamInvariant(captures, consumed + 1, wasRunning, !captures[consumed].StopRequested?,
                            !captures[consumed].StopRequested?, frames)
  {
    NoStopSnoc(captures, consumed);
  }

  /** A frame captured and written out joins the frames sent. */
  lemma StreamSent(captures: seq<Event<CaptureResult>>, consumed: nat, wasRunning: bool, running: bool,
                   frames: seq<Frame>)
    requires StreamInvariant(captures, consumed, wasRunning, running, false, frames)
    requires running && consumed < |captures| && Delivers(captures[consumed])
    ensures StreamInvariant(captures, consumed + 1, wasRunning, running, false,
                            frames + [captures[consumed].result.frame])
  {
    NoStopSnoc(captures, consumed);
    var more := frames + [captures[consumed].result.frame];
    forall k | 0 <= k < |more|
      ensures captures[k] == Io(Captured(more[k], true))
    {
      if k < |frames| {
        assert more[k] == frames[k];
      }
    }
  }

  /** The first n connect attempts were all refused. */
  predicate RefusedOnly(attempts: seq<Event<ConnectResult>>, n: nat)
    requires n <= |attempts|
  {
    forall k :: 0 <= k < n ==> attempts[k] == Io(Refused)
  }

  /** The first n - 1 connect attempts were refused and attempt n connected. */
  predicate ConnectedAt(attempts: seq<Event<ConnectResult>>, n: nat) {
    0 < n <= |attempts| && RefusedOnly(attempts, n - 1) && attempts[n - 1] == Io(Connected)
  }

  /** A capture cycle that ends with the frame written out. */
  predicate Delivers(e: Event<CaptureResult>): (r: bool)
    ensures r ==> e.Io? && e.result.Captured? && e.result.sendOk
    ensures e.Io? && e.result.Captured? && e.result.sendOk ==> (r <==> Encode(e.result.frame).Ok?)
  {
    e.Io? && e.result.Captured? && e.result.sendOk && |e.result.frame| < LengthLimit
  }

  /** The frames the receiving thread puts into the slot during a display trace. */
  function Arrivals(events: seq<Event<DisplayResult>>): seq<Frame>
  {
    if events == [] then []
    else
      var last := events[|events| - 1];
      Arrivals(events[..|events| - 1]) + (if last.Io? && last.result.Arrived? then [last.result.frame] else [])
  }

  /**
   * The quit test keeps the low byte of the key code (a bitwise and with
   * 0xFF) and compares it with 'q'. Dafny's % by 256 is that low byte, also
   * for the -1 reported when no key was pressed.
   */
  predicate IsQuitKey(code: int): (r: bool)
    ensures code == -1 ==> !r
    ensures 0 <= code < 256 ==> (r <==> code == 'q' as int)
  {
    code % 256 == 'q' as int
  }

  predicate NoQuit(events: seq<Event<DisplayResult>>) {
    forall k :: 0 <= k < |events| ==> !(events[k].Io? && events[k].result.Key? && IsQuitKey(events[k].result.code))
  }

  class WebcamStreamer {
    const config: Config
    /** The frame_queue shared by the receiving thread and the display loop. */
    const frameQueue: Slot<Frame>

    var running: bool
    var camera: Handle
    var receiveSocket: Handle
    var sendSocket: Handle
    var display: Handle
    var inbound: LinkState
    var outbound: LinkState
    /** Every byte sendall has written to the outbound connection. */
    var wire: seq<byte>

    /** A streamer whose camera opened: not running, no socket created, slot empty. */
    constructor (cfg: Config)
      ensures config == cfg && fresh(frameQueue) && frameQueue.item == None
      ensures !running && camera == Open
      ensures receiveSocket == Absent && sendSocket == Absent && display == Absent
      ensures inbound == Idle && outbound == Idle && wire == []
    {
      config := cfg;
      frameQueue := new Slot();
      running := false;
      camera := Open;
      receiveSocket, sendSocket, display := Absent, Absent, Absent;
      inbound, outbound := Idle, Idle;
      wire := [];
    }

    /** The only place the flag becomes true. */
    method Start()
      modifies this`running
      ensures running
    {
      running := true;
    }

    /** Releases what is open; safe to run again. */
    method Cleanup()
      modifies this`camera, this`receiveSocket, this`sendSocket, this`display
      ensures camera == Release(old(camera)) && receiveSocket == Release(old(receiveSocket))
      ensures sendSocket == Release(old(sendSocket)) && display == Release(old(display))
    {
      if camera == Open {
        camera := Released;
      }
      if receiveSocket != Absent {
        receiveSocket := Released;
      }
      if sendSocket != Absent {
        sendSocket := Released;
      }
      // close every display window
      if display == Open {
        display := Released;
      }
    }

    /** SIGINT / SIGTERM: clear the flag and clean up (the process then exits). */
    method SignalHandler()
      modifies this`running, this`camera, this`receiveSocket, this`sendSocket, this`display
      ensures !running
      ensures camera == Release(old(camera)) && receiveSocket == Release(old(receiveSocket))
      ensures sendSocket == Release(old(sendSocket)) && display == Release(old(display))
    {
      running := false;
      Cleanup();
    }

    /**
     * receive_frames after accept: feed each chunk to the decoder and put
     * every completed frame into the slot. `running` is looked at only before
     * each message, so after a stop the link still completes and puts the
     * message it is reading, then closes. `consumed` is how much of the trace
     * the link went through.
     */
    method ReceiveFrames(events: seq<Event<RecvResult>>) returns (received: seq<Frame>, consumed: nat)
      modifies this`running, this`receiveSocket, this`inbound, frameQueue
      ensures consumed <= |events|
      ensures receiveSocket == Open
      ensures running <==> old(running) && NoStop(events[..consumed])
      ensures received <= Parse(Bytes(events[..consumed])).frames
      ensures old(running) && NoStop(events[..consumed]) ==> received == Parse(Bytes(events[..consumed])).frames
      ensures old(running) && !running ==>
                FirstStop(events) < consumed &&
                |Parse(Bytes(events[..FirstStop(events)])).frames| <= |received| <=
                |Parse(Bytes(events[..FirstStop(events)])).frames| + 1
      ensures received != [] ==> frameQueue.item == Some(received[|received| - 1])
      ensures received == [] ==> frameQueue.item == old(frameQueue.item)
      ensures !old(running) ==> consumed == 0 && received == [] && inbound == Closed
      ensures consumed > 0 && events[consumed - 1] == Io(ConnectionLost) ==> inbound == Closed
      ensures consumed < |events| ==> inbound == Closed
      ensures old(running) && inbound == Closed ==>
                consumed > 0 &&
                (events[consumed - 1] == Io(ConnectionLost) ||
                 (!running && |received| == |Parse(Bytes(events[..FirstStop(events)])).frames| + 1))
      ensures forall k :: 0 <= k < consumed - 1 ==> events[k] != Io(ConnectionLost)
      ensures inbound == Streaming ==> forall k :: 0 <= k < consumed ==> events[k] != Io(ConnectionLost)
      ensures old(running) && !running && |received| == |Parse(Bytes(events[..FirstStop(events)])).frames| ==>
                |Parse(Bytes(events[..consumed])).frames| == |received|
      ensures old(running) && !running && |received| == |Parse(Bytes(events[..FirstStop(events)])).frames| + 1 ==>
                inbound == Closed && consumed > 0 && |Parse(Bytes(events[..consumed - 1])).frames| == |received| - 1
      ensures inbound == Closed || inbound == Streaming
    {
      // binding, listening and accepting the one peer always succeed
      receiveSocket := Open;
      inbound := Streaming;
      var decoder := new StreamDecoder();
      var done;
      ghost var cut;
      received, consumed, done, cut := ReceiveMessages(decoder, events);
      ReceiveOutcome(events, consumed, old(running), running, done, decoder.stream, decoder.delivered, received, cut);
      if done {
        // the accepted connection is closed
        inbound := Closed;
      }
    }

    /**
     * The outer loop of receive_frames over one connection:
     * it ends when the connection is lost, or when a frame has been put after
     * a stop, or when the trace runs out.
     */
    method ReceiveMessages(decoder: StreamDecoder, events: seq<Event<RecvResult>>)
      returns (received: seq<Frame>, consumed: nat, done: bool, ghost cut: nat)
      requires decoder.Valid() && decoder.stream == [] && decoder.delivered == []
      modifies this`running, decoder, frameQueue
      ensures decoder.Valid()
      ensures ReceiveInvariant(events, consumed, old(running), running, done, decoder.stream, decoder.delivered, received, cut)
      ensures ReceiveEnds(events, consumed, old(running), running, done, decoder.delivered, received, cut)
      ensures frameQueue.item == Latest(received, old(frameQueue.item))
      ensures done || consumed == |events|
    {
      received, consumed, done, cut := [], 0, !running, 0;
      assert events[..0] == [];
      while !done && consumed < |events|
        invariant decoder.Valid()
        invariant ReceiveInvariant(events, consumed, old(running), running, done,
                                   decoder.stream, decoder.delivered, received, cut)
        invariant ReceiveEnds(events, consumed, old(running), running, done, decoder.delivered, received, cut)
        invariant frameQueue.item == Latest(received, old(frameQueue.item))
        decreases |events| - consumed
      {
        received, done, cut := ReceiveEvent(decoder, events[consumed], events, consumed, old(running), received, cut,
                                            old(frameQueue.item));
        consumed := consumed + 1;
      }
    }

    /** One result of recv, or a stop request, handled by the receiving link. */
    method ReceiveEvent(decoder: StreamDecoder, event: Event<RecvResult>, ghost events: seq<Event<RecvResult>>,
                        ghost consumed: nat, ghost wasRunning: bool, received: seq<Frame>, ghost cut: nat,
                        ghost before: Option<Frame>)
      returns (received': seq<Frame>, done: bool, ghost cut': nat)
      requires consumed < |events| && event == events[consumed]
      requires decoder.Valid()
      requires ReceiveInvariant(events, consumed, wasRunning, running, false, decoder.stream, decoder.delivered, received, cut)
      requires ReceiveEnds(events, consumed, wasRunning, running, false, decoder.delivered, received, cut)
      requires frameQueue.item == Latest(received, before)
      modifies this`running, decoder, frameQueue
      ensures decoder.Valid()
      ensures ReceiveInvariant(events, consumed + 1, wasRunning, running, done, decoder.stream, decoder.delivered, received', cut')
      ensures ReceiveEnds(events, consumed + 1, wasRunning, running, done, decoder.delivered, received', cut')
      ensures frameQueue.item == Latest(received', before)
    {
      match event {
        case StopRequested =>
          ReceiveStop(events, consumed, wasRunning, running, decoder.stream, decoder.delivered, received, cut);
          ReceiveStopEnds(events, consumed, wasRunning, running, decoder.delivered, received, cut);
          received', done, cut' := received, false, if running then |received| else cut;
          running := false;
        case Io(ConnectionLost) =>
          ReceiveLost(events, consumed, wasRunning, running, decoder.stream, decoder.delivered, received, cut);
          ReceiveLostEnds(events, consumed, wasRunning, running, decoder.delivered, received, cut);
          received', done, cut' := received, true, cut;
        case Io(Chunk(bytes)) =>
          ghost var stream, delivered := decoder.stream, decoder.delivered;
          var frames := decoder.Feed(bytes);
          var put := PutFrames(frames);
          ReceiveChunk(events, consumed, wasRunning, running, stream, delivered, received, cut, frames, put);
          ReceiveChunkEnds(events, consumed, wasRunning, running, delivered, received, cut, frames, put);
          LatestAppend(received, frames[..put], before);
          received', done, cut' := received + frames[..put], put > 0 && !running, cut;
      }
    }

    /**
     * The frames one recv completed, put into the slot one by one; `running`
     * is checked after each put, so once it is false only the first is put.
     */
    method PutFrames(frames: seq<Frame>) returns (put: nat)
      modifies frameQueue
      ensures put <= |frames|
      ensures put == if running then |frames| else if frames == [] then 0 else 1
      ensures frameQueue.item == Latest(frames[..put], old(frameQueue.item))
    {
      put := 0;
      var done := false;
      while put < |frames| && !done
        invariant put <= |frames|
        invariant done <==> put > 0 && !running
        invariant !running ==> put <= 1
        invariant put > 0 ==> frameQueue.item == Some(frames[put - 1])
        invariant put == 0 ==> frameQueue.item == old(frameQueue.item)
      {
        frameQueue.Put(frames[put]);
        put := put + 1;
        // the outer loop re-checks the flag
        done := !running;
      }
    }

    /**
     * The connect loop of send_frames: retry while refused and `running`; any
     * other error clears `running` and ends the link; success starts
     * streaming. A stop seen at the loop head ends the link too.
     */
    method Connect(attempts: seq<Event<ConnectResult>>) returns (consumed: nat)
      modifies this`running, this`sendSocket, this`outbound
      ensures consumed <= |attempts|
      ensures sendSocket == Open
      ensures !old(running) ==> consumed == 0 && outbound == Closed
      ensures old(running) ==>
                RefusedOnly(attempts, consumed) ||
                (consumed > 0 && RefusedOnly(attempts, consumed - 1) && attempts[consumed - 1] != Io(Refused))
      ensures old(running) && consumed < |attempts| ==> consumed > 0 && attempts[consumed - 1] != Io(Refused)
      ensures outbound == Connecting <==> old(running) && consumed == |attempts| && RefusedOnly(attempts, consumed)
      ensures outbound == Streaming <==> old(running) && ConnectedAt(attempts, consumed)
      ensures outbound == Connecting || outbound == Streaming || outbound == Closed
      ensures running <==> old(running) && outbound != Closed
    {
      // a fresh TCP socket for the outbound link
      sendSocket := Open;
      outbound := Connecting;
      consumed := 0;
      while running && outbound == Connecting && consumed < |attempts|
        invariant consumed <= |attempts|
        invariant sendSocket == Open
        invariant !old(running) ==> consumed == 0 && !running
        invariant outbound == Connecting ==> RefusedOnly(attempts, consumed) && running == old(running)
        invariant outbound != Connecting ==>
                    consumed > 0 && RefusedOnly(attempts, consumed - 1) && attempts[consumed - 1] != Io(Refused)
        invariant outbound == Streaming <==> consumed > 0 && attempts[consumed - 1] == Io(Connected) && outbound != Connecting
        invariant outbound == Connecting || outbound == Streaming || outbound == Closed
        invariant outbound == Streaming ==> running
        invariant outbound == Closed ==> !running
        decreases |attempts| - consumed
      {
        match attempts[consumed] {
          case Io(Refused) =>
            // refused: wait and try again
          case Io(ConnectFailed) =>
            running := false;
            outbound := Closed;
          case Io(Connected) =>
            outbound := Streaming;
          case StopRequested =>
            running := false;
            outbound := Closed;
        }
        consumed := consumed + 1;
      }
      if !running {
        // the loop head saw running false; the streaming loop does not run either
        outbound := Closed;
      }
    }

    /**
     * The streaming loop of send_frames: capture, pack, sendall, until a
     * capture or send fails or `running` is cleared. What it writes is the
     * framing of exactly the frames it reports sent.
     */
    method StreamFrames(captures: seq<Event<CaptureResult>>) returns (frames: seq<Frame>, consumed: nat)
      requires outbound == Streaming
      modifies this`running, this`outbound, this`wire
      ensures |frames| <= consumed <= |captures|
      ensures Encodable(frames) && wire == old(wire) + EncodeAll(frames)
      ensures forall k :: 0 <= k < |frames| ==> captures[k] == Io(Captured(frames[k], true))
      ensures consumed == |frames| || (consumed == |frames| + 1 && !Delivers(captures[|frames|]))
      ensures !old(running) ==> consumed == 0
      ensures running <==> old(running) && NoStop(captures[..consumed])
      ensures outbound == Streaming <==> running && consumed == |frames|
      ensures outbound == Streaming ==> consumed == |captures|
      ensures outbound == Streaming || outbound == Closed
    {
      frames, consumed := [], 0;
      var done := false;
      assert captures[..0] == [];
      while running && !done && consumed < |captures|
        invariant StreamInvariant(captures, consumed, old(running), running, done, frames)
        invariant wire == old(wire) + EncodeAll(frames)
        invariant outbound == Streaming
        decreases |captures| - consumed
      {
        frames, done := StreamEvent(captures[consumed], captures, consumed, old(running), frames, old(wire));
        consumed := consumed + 1;
      }
      if done || !running {
        outbound := Closed;
      }
    }

    /** One capture-and-send cycle of the streaming loop, or a stop request before it. */
    method StreamEvent(event: Event<CaptureResult>, ghost captures: seq<Event<CaptureResult>>, ghost consumed: nat,
                       ghost wasRunning: bool, frames: seq<Frame>, ghost start: seq<byte>)
      returns (frames': seq<Frame>, done: bool)
      requires consumed < |captures| && event == captures[consumed] && running
      requires StreamInvariant(captures, consumed, wasRunning, running, false, frames)
      requires wire == start + EncodeAll(frames)
      modifies this`running, this`wire
      ensures StreamInvariant(captures, consumed + 1, wasRunning, running, done, frames')
      ensures wire == start + EncodeAll(frames')
    {
      frames', done := frames, false;
      match event {
        case StopRequested =>
          StreamHalt(captures, consumed, wasRunning, running, frames);
          running := false;
        case Io(CaptureFailed) =>
          // the camera gave no frame
          StreamHalt(captures, consumed, wasRunning, running, frames);
          done := true;
        case Io(Captured(frame, sendOk)) =>
          var message := Encode(frame);
          if message.Err? || !sendOk {
            // packing or sending failed
            StreamHalt(captures, consumed, wasRunning, running, frames);
            done := true;
          } else {
            StreamSent(captures, consumed, wasRunning, running, frames);
            EncodeAllSnoc(frames, frame);
            SeqAssoc(start, EncodeAll(frames), message.value);
            wire := wire + message.value;
            frames' := frames + [frame];
          }
      }
    }

    /** send_frames: connect, then stream if connected. */
    method SendFrames(attempts: seq<Event<ConnectResult>>, captures: seq<Event<CaptureResult>>)
      returns (tried: nat, frames: seq<Frame>, streamed: nat)
      modifies this`running, this`sendSocket, this`outbound, this`wire
      ensures tried <= |attempts| && sendSocket == Open
      ensures running ==> old(running)
      ensures !old(running) ==> tried == 0 && frames == [] && streamed == 0 && outbound == Closed
      // the connect loop
      ensures old(running) ==>
                RefusedOnly(attempts, tried) ||
                (tried > 0 && RefusedOnly(attempts, tried - 1) && attempts[tried - 1] != Io(Refused))
      ensures old(running) && tried < |attempts| ==> tried > 0 && attempts[tried - 1] != Io(Refused)
      ensures outbound == Connecting <==> old(running) && tried == |attempts| && RefusedOnly(attempts, tried)
      ensures outbound == Connecting ==> running && frames == [] && streamed == 0
      ensures old(running) && tried > 0 && attempts[tried - 1] == Io(ConnectFailed) ==>
                !running && outbound == Closed && frames == [] && streamed == 0
      ensures !(old(running) && ConnectedAt(attempts, tried)) ==> frames == [] && streamed == 0
      ensures !(old(running) && ConnectedAt(attempts, tried)) && outbound != Connecting ==>
                outbound == Closed && !running
      // the streaming loop, once connected
      ensures old(running) && ConnectedAt(attempts, tried) ==>
                |frames| <= streamed <= |captures| &&
                (forall k :: 0 <= k < |frames| ==> captures[k] == Io(Captured(frames[k], true))) &&
                (streamed == |frames| || (streamed == |frames| + 1 && !Delivers(captures[|frames|]))) &&
                (running <==> NoStop(captures[..streamed])) &&
                (outbound == Streaming <==> running && streamed == |frames|) &&
                (outbound == Streaming ==> streamed == |captures|)
      ensures outbound == Connecting || outbound == Streaming || outbound == Closed
      // what reaches the peer
      ensures Encodable(frames) && wire == old(wire) + EncodeAll(frames)
      ensures Parse(EncodeAll(frames)) == Split(frames, [])
    {
      tried := Connect(attempts);
      if outbound == Streaming {
        frames, streamed := StreamFrames(captures);
      } else {
        frames, streamed := [], 0;
        assert EncodeAll(frames) == [];
      }
      ParseEncodeAllExactly(frames);
    }

    /**
     * display_frames: while running, take a frame if there is one and show
     * it, then poll the keyboard; 'q' clears `running`. Once the loop has
     * ended, cleanup runs. Frames are shown in the order the receiving
     * thread put them, some of them dropped, none invented or repeated.
     */
    method DisplayFrames(events: seq<Event<DisplayResult>>) returns (shown: seq<Frame>, consumed: nat)
      modifies this`running, this`camera, this`receiveSocket, this`sendSocket, this`display, frameQueue
      ensures consumed <= |events|
      ensures running <==> old(running) && NoStop(events[..consumed]) && NoQuit(events[..consumed])
      ensures running ==> consumed == |events|
      ensures old(running) && !running ==>
                0 < consumed && Halts(events[consumed - 1]) &&
                NoStop(events[..consumed - 1]) && NoQuit(events[..consumed - 1])
      ensures Replay(old(frameQueue.item), events[..consumed]) == Screen(frameQueue.item, shown)
      ensures IsSubsequence(shown, Held(old(frameQueue.item)) + Arrivals(events[..consumed]))
      ensures !old(running) ==> consumed == 0 && shown == [] && frameQueue.item == old(frameQueue.item)
      ensures running ==>
                camera == old(camera) && receiveSocket == old(receiveSocket) && sendSocket == old(sendSocket) &&
                display == (if shown != [] then Open else old(display))
      ensures !running ==>
                camera == Release(old(camera)) && receiveSocket == Release(old(receiveSocket)) &&
                sendSocket == Release(old(sendSocket)) &&
                display == Release(if shown != [] then Open else old(display))
    {
      shown, consumed := [], 0;
      assert events[..0] == [];
      while running && consumed < |events|
        invariant DisplayInvariant(events, consumed, old(running), running, old(frameQueue.item), shown, frameQueue.item)
        invariant !old(running) ==> consumed == 0
        invariant camera == old(camera) && receiveSocket == old(receiveSocket) && sendSocket == old(sendSocket)
        invariant display == if shown != [] then Open else old(display)
        decreases |events| - consumed
      {
        shown := DisplayEvent(events[consumed], events, consumed, old(running), old(frameQueue.item), shown);
        consumed := consumed + 1;
      }
      DisplayOutcome(events, consumed, old(running), running, old(frameQueue.item), shown, frameQueue.item);
      if !running {
        Cleanup();
      }
    }

    /**
     * One iteration of the display loop, or the receiving thread's put
     * between two of them: a put replaces the held frame; a key poll takes
     * the held frame, if there is one, shows it and clears `running` on the
     * quit key; a stop request clears `running` and nothing else.
     */
    method DisplayEvent(event: Event<DisplayResult>, ghost events: seq<Event<DisplayResult>>, ghost consumed: nat,
                        ghost wasRunning: bool, ghost before: Option<Frame>, shown: seq<Frame>)
      returns (shown': seq<Frame>)
      requires running
      requires consumed < |events| && event == events[consumed]
      requires DisplayInvariant(events, consumed, wasRunning, running, before, shown, frameQueue.item)
      modifies this`running, this`display, frameQueue
      ensures running <==> !Halts(event)
      ensures display == if event.Io? && event.result.Key? && old(frameQueue.item).Some? then Open else old(display)
      ensures event.Io? && event.result.Arrived? ==> frameQueue.item == Some(event.result.frame) && shown' == shown
      ensures event.Io? && event.result.Key? ==> frameQueue.item == None && shown' == shown + Held(old(frameQueue.item))
      ensures event.StopRequested? ==> frameQueue.item == old(frameQueue.item) && shown' == shown
      ensures DisplayInvariant(events, consumed + 1, wasRunning, running, before, shown', frameQueue.item)
    {
      DisplayStep(events, consumed, wasRunning, before, shown, frameQueue.item);
      shown' := shown;
      match event {
        case StopRequested =>
          running := false;
        case Io(Arrived(frame)) =>
          // the receiving thread's put
          frameQueue.Put(frame);
        case Io(Key(code)) =>
          var frame := frameQueue.TryTake();
          if frame.Some? {
            // the taken frame goes to the window
            display := Open;
            shown' := shown + [frame.value];
          }
          if IsQuitKey(code) {
            running := false;
          }
      }
    }
  }

  /**
   * The entry point: equal ports are refused before anything is constructed,
   * a camera that does not open makes the constructor fail, and otherwise the
   * streamer starts.
   */
  method Launch(cfg: Config, cameraOpens: bool) returns (r: Result<WebcamStreamer, StartupError>)
    ensures r.Err? <==> cfg.receivePort == cfg.sendPort || !cameraOpens
    ensures cfg.receivePort == cfg.sendPort ==> r == Err(PortsEqual)
    ensures cfg.receivePort != cfg.sendPort && !cameraOpens ==> r == Err(CameraUnavailable)
    ensures r.Ok? ==> fresh(r.value) && r.value.config == cfg && r.value.running
    ensures r.Ok? ==> r.value.receiveSocket == Absent && r.value.sendSocket == Absent
  {
    var checked := CheckPorts(cfg);
    if checked.Err? {
      return Err(checked.error);
    }
    if !cameraOpens {
      return Err(CameraUnavailable);
    }
    var streamer := new WebcamStreamer(cfg);
    streamer.Start();
    return Ok(streamer);
  }

  /**
   * Two messages arrive back to back before the display loop takes anything:
   * the first take yields the second frame and the slot is then empty.
   */
  method BackToBack(a: Frame, b: Frame) returns (first: Option<Frame>, second: Option<Frame>)
    requires |a| < LengthLimit && |b| < LengthLimit
    ensures first == Some(b) && second == None
  {
    var streamer := new WebcamStreamer(DefaultConfig);
    streamer.Start();
    var bytes := Encode(a).value + Encode(b).value;
    TwoMessages(a, b);
    var received, consumed := streamer.ReceiveFrames([Io(Chunk(bytes))]);
    first := streamer.frameQueue.TryTake();
    second := streamer.frameQueue.TryTake();
  }

  /** The one-chunk trace of BackToBack holds no stop and carries the two messages. */
  lemma TwoMessages(a: Frame, b: Frame)
    requires |a| < LengthLimit && |b| < LengthLimit
    ensures var trace := [Io(Chunk(Encode(a).value + Encode(b).value))];
      NoStop(trace[..1]) && Parse(Bytes(trace[..1])).frames == [a, b]
  {
    var bytes := Encode(a).value + Encode(b).value;
    var trace: seq<Event<RecvResult>> := [Io(Chunk(bytes))];
    assert trace[..1] == trace && trace[..0] == [];
    assert Bytes(trace) == bytes;
    EncodeAllCons(b, []);
    assert [b] + [] == [b] && EncodeAll([]) == [];
    assert EncodeAll([b]) == Encode(b).value;
    EncodeAllCons(a, [b]);
    assert [a] + [b] == [a, b];
    assert EncodeAll([a, b]) == bytes;
    ParseEncodeAllExactly([a, b]);
  }
}
