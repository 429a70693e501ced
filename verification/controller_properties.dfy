/** What one iteration (and a run of iterations) of the state controller
    guarantees, stated in terms of the queue contents, the clock and the
    remembered record rather than the step's internal helpers. */
module ControllerProperties {
  import opened Wrappers
  import opened Ticks
  import opened SystemEnums
  import DE = DepthEstimation
  import opened StateController

  /** The iteration runs the disconnected (independent) logic. */
  predicate Independent(c: Controller, inbox: Inbox) {
    inbox.connection.GetOr(c.hostCondition) != Connected
  }

  /** Disconnected, new frame with people, ToF frame in the queue: every
      detection's depth is re-estimated from it, and the state is Stopped
      exactly when at least one of those depths is within the danger
      distance, Warning otherwise, never Idle. */
  lemma FreshFrameFreshTof(c: Controller, inbox: Inbox, clock: Clock, cfg: Config)
    requires StepOk(c, inbox, cfg) && Independent(c, inbox)
    requires inbox.detection.Some? && DetectionCount(inbox.detection.value) > 0 && inbox.tof.Some?
    ensures var f := inbox.detection.value;
      var r := Step(c, inbox, clock, cfg);
      && r.next.current in {Stopped, Warning}
      && (r.next.current == Stopped <==>
          exists i :: 0 <= i < DetectionCount(f) &&
            DE.ComputeDepth(f.detections[i], f.camera, inbox.tof.value.distanceMm, cfg.grid) <= cfg.dangerDepthMm)
      && (forall i :: 0 <= i < DetectionCount(f) ==>
            r.next.depth.depths[i] == DE.ComputeDepth(f.detections[i], f.camera, inbox.tof.value.distanceMm, cfg.grid))
      && r.next.lastTofTick == clock.now && r.rest.tof.None?
  {
    var f := inbox.detection.value;
    var r := Step(c, inbox, clock, cfg);
    var depths := r.next.depth.depths;
    assert forall i :: 0 <= i < DetectionCount(f) ==>
      depths[i] == DE.ComputeDepth(f.detections[i], f.camera, inbox.tof.value.distanceMm, cfg.grid);
  }

  /** Disconnected, new frame with people, ToF queue empty: the depths are not
      re-estimated; while the last ToF frame is at most 1000 ms old the
      remembered depths decide Stopped or Warning, after that it is Warning. */
  lemma FreshFrameRememberedTof(c: Controller, inbox: Inbox, clock: Clock, cfg: Config)
    requires StepOk(c, inbox, cfg) && Independent(c, inbox)
    requires inbox.detection.Some? && DetectionCount(inbox.detection.value) > 0 && inbox.tof.None?
    ensures var n := DetectionCount(inbox.detection.value);
      var r := Step(c, inbox, clock, cfg);
      && r.next.depth.depths == c.depth.depths
      && r.next.lastTofTick == c.lastTofTick
      && (Elapsed(clock.now, c.lastTofTick) > TofMemoryTimeoutMs ==> r.next.current == Warning)
      && (Elapsed(clock.now, c.lastTofTick) <= TofMemoryTimeoutMs ==>
            (r.next.current == Stopped <==> exists i :: 0 <= i < n && c.depth.depths[i] <= cfg.dangerDepthMm))
      && r.next.current in {Stopped, Warning}
  {
  }

  /** Disconnected, new frame with nobody in it: Idle whatever the ToF
      queue holds; the ToF queue is not read and nothing is re-estimated. */
  lemma FreshEmptyFrameIdle(c: Controller, inbox: Inbox, clock: Clock, cfg: Config)
    requires StepOk(c, inbox, cfg) && Independent(c, inbox)
    requires inbox.detection.Some? && DetectionCount(inbox.detection.value) == 0
    ensures var r := Step(c, inbox, clock, cfg);
      r.next.current == Idle && r.rest.tof == inbox.tof && r.next.depth == c.depth
      && r.next.lastDetectionTick == c.lastDetectionTick
  {
  }

  /** Disconnected, no new frame: the remembered frame is used only if it
      has people in it and its last people-sighting is at most 1000 ms old
      (age computed modulo 2^32); otherwise the state is Idle. */
  lemma NoFrameForgottenIdle(c: Controller, inbox: Inbox, clock: Clock, cfg: Config)
    requires StepOk(c, inbox, cfg) && Independent(c, inbox)
    requires inbox.detection.None?
    ensures var r := Step(c, inbox, clock, cfg);
      r.next.current == Idle <==>
        (Elapsed(clock.now, c.lastDetectionTick) > DetectionMemoryTimeoutMs || DetectionCount(c.detection) == 0)
  {
  }

  /** Disconnected, no new frame, remembered frame still valid: the ToF
      queue is not read and the remembered depths are reused unchanged;
      with ToF data older than 1000 ms the state is Warning, otherwise
      Stopped exactly when a remembered depth is within the danger distance. */
  lemma RememberedFrame(c: Controller, inbox: Inbox, clock: Clock, cfg: Config)
    requires StepOk(c, inbox, cfg) && Independent(c, inbox)
    requires inbox.detection.None?
    requires Elapsed(clock.now, c.lastDetectionTick) <= DetectionMemoryTimeoutMs && DetectionCount(c.detection) > 0
    ensures var r := Step(c, inbox, clock, cfg);
      && r.next.depth == c.depth && r.rest.tof == inbox.tof && r.next.lastTofTick == c.lastTofTick
      && (Elapsed(clock.now, c.lastTofTick) > TofMemoryTimeoutMs ==> r.next.current == Warning)
      && (Elapsed(clock.now, c.lastTofTick) <= TofMemoryTimeoutMs ==>
            (r.next.current == Stopped <==>
               exists i :: 0 <= i < DetectionCount(c.detection) && c.depth.depths[i] <= cfg.dangerDepthMm))
  {
  }

  /** One detection within the danger distance is enough, and a detection
      with no usable ToF reading (depth -1) counts as within it whenever the
      danger distance is at least -1. */
  lemma NoReadingStops(c: Controller, inbox: Inbox, clock: Clock, cfg: Config, k: nat)
    requires StepOk(c, inbox, cfg) && Independent(c, inbox)
    requires inbox.detection.Some? && inbox.tof.Some?
    requires k < DetectionCount(inbox.detection.value)
    requires |DE.UsableReadings(DE.FindOverlappingCells(inbox.detection.value.detections[k],
                inbox.detection.value.camera, cfg.grid), inbox.tof.value.distanceMm)| == 0
    requires cfg.dangerDepthMm >= DE.NoDepth
    ensures Step(c, inbox, clock, cfg).next.current == Stopped
  {
    FreshFrameFreshTof(c, inbox, clock, cfg);
    var f := inbox.detection.value;
    assert DE.ComputeDepth(f.detections[k], f.camera, inbox.tof.value.distanceMm, cfg.grid) == DE.NoDepth;
  }

  /** The last-detection tick moves (to now) only on a new frame with
      people in it; the last-ToF tick moves (to now) only when a ToF frame
      is taken from its queue. */
  lemma TickBookkeeping(c: Controller, inbox: Inbox, clock: Clock, cfg: Config)
    requires StepOk(c, inbox, cfg)
    ensures var r := Step(c, inbox, clock, cfg);
      && r.next.lastDetectionTick ==
           (if inbox.detection.Some? && DetectionCount(inbox.detection.value) > 0 then clock.now else c.lastDetectionTick)
      && (inbox.tof.Some? && r.rest.tof.None? ==> r.next.lastTofTick == clock.now)
      && (!(inbox.tof.Some? && r.rest.tof.None?) ==> r.next.lastTofTick == c.lastTofTick)
  {
  }

  /** Connected: the state is decided by the host state alone (the queued one,
      else the remembered one), checking red, yellow, blue, green in that
      order; a host state in no bucket leaves HostReading. */
  lemma ConnectedHostDecides(c: Controller, inbox: Inbox, clock: Clock, cfg: Config)
    requires StepOk(c, inbox, cfg) && !Independent(c, inbox)
    ensures var h := inbox.hostState.GetOr(c.hostState);
      var b := cfg.buckets;
      var r := Step(c, inbox, clock, cfg);
      && r.next.hostState == h && r.rest.hostState.None?
      && (h in b.red ==> r.next.current == Stopped)
      && (h !in b.red && h in b.yellow ==> r.next.current == Warning)
      && (h !in b.red && h !in b.yellow && h in b.blue ==> r.next.current == Idle)
      && (h !in b.red && h !in b.yellow && h !in b.blue && h in b.green ==> r.next.current == Active)
      && (h !in b.red && h !in b.yellow && h !in b.blue && h !in b.green ==> r.next.current == HostReading)
  {
  }

  /** Connected: detections, depths, ToF data and their ticks never change
      the decided or the published state. */
  lemma ConnectedIgnoresSensors(c1: Controller, c2: Controller, in1: Inbox, in2: Inbox, clock1: Clock, clock2: Clock, cfg: Config)
    requires StepOk(c1, in1, cfg) && StepOk(c2, in2, cfg)
    requires !Independent(c1, in1) && !Independent(c2, in2)
    requires c1.current == c2.current
    requires in1.hostState.GetOr(c1.hostState) == in2.hostState.GetOr(c2.hostState)
    ensures Step(c1, in1, clock1, cfg).next.current == Step(c2, in2, clock2, cfg).next.current
    ensures Step(c1, in1, clock1, cfg).published == Step(c2, in2, clock2, cfg).published
  {
  }

  /** Disconnected: the host-state queue is left alone and the remembered host state kept. */
  lemma IndependentKeepsHostState(c: Controller, inbox: Inbox, clock: Clock, cfg: Config)
    requires StepOk(c, inbox, cfg) && Independent(c, inbox)
    ensures var r := Step(c, inbox, clock, cfg);
      r.rest.hostState == inbox.hostState && r.next.hostState == c.hostState
  {
  }

  /** Connection updates only ever say Connected (the heartbeat handler writes nothing else). */
  predicate HeartbeatOnly(inbox: Inbox) {
    inbox.connection.None? || inbox.connection == Some(Connected)
  }

  predicate RunOk(c: Controller, inboxes: seq<Inbox>, cfg: Config) {
    Valid(c) && DE.GridOk(cfg.grid) && forall i :: 0 <= i < |inboxes| ==> InboxOk(inboxes[i], |c.depth.depths|, cfg)
  }

  /** Iterate the step over a sequence of queue contents and clock reads. */
  function Run(c: Controller, inboxes: seq<Inbox>, clocks: seq<Clock>, cfg: Config): (r: Controller)
    requires |clocks| == |inboxes|
    requires RunOk(c, inboxes, cfg)
    ensures Valid(r) && |r.depth.depths| == |c.depth.depths|
    decreases |inboxes|
  {
    if |inboxes| == 0 then c
    else
      var next := Step(c, inboxes[0], clocks[0], cfg).next;
      Run(next, inboxes[1..], clocks[1..], cfg)
  }

  /** Once connected, a controller that only ever hears heartbeats stays in
      connected (host-driven) mode for every later iteration. */
  lemma {:induction false} StaysConnected(c: Controller, inboxes: seq<Inbox>, clocks: seq<Clock>, cfg: Config)
    requires |clocks| == |inboxes| && RunOk(c, inboxes, cfg)
    requires c.hostCondition == Connected
    requires forall i :: 0 <= i < |inboxes| ==> HeartbeatOnly(inboxes[i])
    ensures Run(c, inboxes, clocks, cfg).hostCondition == Connected
    decreases |inboxes|
  {
    if |inboxes| > 0 {
      var next := Step(c, inboxes[0], clocks[0], cfg).next;
      assert RunOk(next, inboxes[1..], cfg) by {
        forall i | 0 <= i < |inboxes[1..]| ensures InboxOk(inboxes[1..][i], |next.depth.depths|, cfg) {
          assert inboxes[1..][i] == inboxes[i + 1];
        }
      }
      assert forall i :: 0 <= i < |inboxes[1..]| ==> HeartbeatOnly(inboxes[1..][i]) by {
        forall i | 0 <= i < |inboxes[1..]| ensures HeartbeatOnly(inboxes[1..][i]) {
          assert inboxes[1..][i] == inboxes[i + 1];
        }
      }
      StaysConnected(next, inboxes[1..], clocks[1..], cfg);
    }
  }
}
