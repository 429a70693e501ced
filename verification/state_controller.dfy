/** One iteration of the state controller task's loop
    (src/m7/state_controller_task.cc) as a pure step: the record of what the
    task keeps between iterations, plus what its queues hold and what its
    clock reads this iteration, give the next record, the state written to
    the state-update queue (if any) and what is left in the queues.
    The logging record written to the logging queue is `next.log`. */
module StateController {
  import opened Wrappers
  import opened Ticks
  import opened SystemEnums
  import DE = DepthEstimation

  /** How long a detection frame with people in it is remembered (ticks are milliseconds). */
  const DetectionMemoryTimeoutMs: Tick := 1000
  /** How long ToF-based depths are remembered. */
  const TofMemoryTimeoutMs: Tick := 1000

  /** A detection frame: the people boxes (the count is the length) and the
      camera geometry they refer to. */
  datatype DetectionFrame = DetectionFrame(detections: seq<DE.PixelBox>, camera: DE.Camera)

  /** A ToF frame: one distance per grid cell (int16 values). */
  datatype TofFrame = TofFrame(distanceMm: seq<int>)

  /** Depth-estimation record: the fixed-size depths array (slot i belongs
      to detection i), when estimation last started and how long it took. */
  datatype DepthRecord = DepthRecord(timestampMs: Tick, depths: seq<real>, estimationTimeMs: Tick)

  /** Snapshot written to the logging queue every iteration. */
  datatype LogRecord = LogRecord(timestampMs: Tick, systemState: SystemState, detection: DetectionFrame, depth: DepthRecord)

  /** Everything the task keeps from one iteration to the next. */
  datatype Controller = Controller(
    current: SystemState,
    detection: DetectionFrame,
    depth: DepthRecord,
    lastDetectionTick: Tick,
    lastTofTick: Tick,
    hostState: HostState,
    hostCondition: HostConnectionStatus,
    log: LogRecord)

  /** Contents of the four input queues at the start of an iteration; None is an empty queue. */
  datatype Inbox = Inbox(
    connection: Option<HostConnectionStatus>,
    hostState: Option<HostState>,
    detection: Option<DetectionFrame>,
    tof: Option<TofFrame>)

  /** The three tick-count reads of an iteration: at its start, after depth
      estimation, and when the logging record is stamped. */
  datatype Clock = Clock(now: Tick, estimateEnd: Tick, logTick: Tick)

  /** Deployment parameters: ToF grid geometry, host-state buckets and the danger distance. */
  datatype Config = Config(grid: DE.Grid, buckets: Buckets, dangerDepthMm: real)

  datatype StepResult = StepResult(next: Controller, published: Option<SystemState>, rest: Inbox)

  datatype Boot = Boot(controller: Controller, published: SystemState)

  function DetectionCount(f: DetectionFrame): nat {
    |f.detections|
  }

  /** The cached frame fits in the depths array. */
  predicate Valid(c: Controller) {
    DetectionCount(c.detection) <= |c.depth.depths|
  }

  /** What the task's callers guarantee: frames fit the depths array (whose
      size is `slots`) and ToF frames cover the grid. */
  predicate InboxOk(inbox: Inbox, slots: nat, cfg: Config) {
    && (inbox.detection.Some? ==> DetectionCount(inbox.detection.value) <= slots)
    && (inbox.tof.Some? ==> DE.CoversGrid(inbox.tof.value.distanceMm, cfg.grid))
  }

  predicate StepOk(c: Controller, inbox: Inbox, cfg: Config) {
    Valid(c) && DE.GridOk(cfg.grid) && InboxOk(inbox, |c.depth.depths|, cfg)
  }

  const EmptyFrame: DetectionFrame := DetectionFrame([], DE.Camera(0, 0))

  /** Task start-up with a depths array of `slots` entries: every static
      record is zero, and the state goes from Uninitialized to HostReading,
      which is written to the state-update queue before the loop starts. */
  function Start(slots: nat): (b: Boot)
    ensures b.published == HostReading && b.controller.current == HostReading
    ensures Valid(b.controller) && |b.controller.depth.depths| == slots
    ensures b.controller.hostCondition == NotConnected && b.controller.hostState == HostUndefined
    ensures DetectionCount(b.controller.detection) == 0
  {
    var depth := DepthRecord(0, seq(slots, _ => 0.0), 0);
    var initial := Uninitialized;
    var current := if initial == Uninitialized then HostReading else initial;
    Boot(Controller(current, EmptyFrame, depth, 0, 0, HostUndefined, NotConnected,
                    LogRecord(0, Uninitialized, EmptyFrame, depth)),
         current)
  }

  /** The detection frame in use after reading the detection queue, whether
      it is new, and the updated last-detection tick. */
  datatype DetectionRead = DetectionRead(frame: DetectionFrame, isNew: bool, lastTick: Tick)

  function ReadDetection(c: Controller, inbox: Inbox, now: Tick): DetectionRead {
    match inbox.detection
    case Some(f) => DetectionRead(f, true, if DetectionCount(f) > 0 then now else c.lastDetectionTick)
    case None => DetectionRead(c.detection, false, c.lastDetectionTick)
  }

  /** The depths array after estimating every detection of `f` against `tof`:
      slot i < count gets compute_depth of detection i, the rest keep their value. */
  function EstimateInto(depths: seq<real>, f: DetectionFrame, tof: TofFrame, g: DE.Grid): (r: seq<real>)
    requires DetectionCount(f) <= |depths|
    requires DE.GridOk(g) && DE.CoversGrid(tof.distanceMm, g)
    ensures |r| == |depths|
    ensures forall i :: 0 <= i < DetectionCount(f) ==> r[i] == DE.ComputeDepth(f.detections[i], f.camera, tof.distanceMm, g)
    ensures forall i :: DetectionCount(f) <= i < |depths| ==> r[i] == depths[i]
  {
    seq(|depths|, i requires 0 <= i < |depths| =>
      if i < DetectionCount(f) then DE.ComputeDepth(f.detections[i], f.camera, tof.distanceMm, g) else depths[i])
  }

  /** Outcome of the ToF part of a scan: the depth record, the last-ToF tick,
      whether a ToF frame was taken, and what is left in the ToF queue. */
  datatype TofScan = TofScan(depth: DepthRecord, lastTofTick: Tick, newTof: bool, tofRest: Option<TofFrame>)

  /** No scan this iteration: nothing changes and the ToF queue is not read. */
  function NoScan(c: Controller, tof: Option<TofFrame>): TofScan {
    TofScan(c.depth, c.lastTofTick, false, tof)
  }

  /** The scan done when the frame in use has people in it: stamp the start,
      read the ToF queue and, if it held a frame, estimate all depths from it;
      then record the elapsed time. */
  function ScanTof(c: Controller, f: DetectionFrame, tof: Option<TofFrame>, clock: Clock, g: DE.Grid): TofScan
    requires DetectionCount(f) <= |c.depth.depths| && DE.GridOk(g)
    requires tof.Some? ==> DE.CoversGrid(tof.value.distanceMm, g)
  {
    var elapsed := Elapsed(clock.estimateEnd, clock.now);
    match tof
    case Some(t) =>
      TofScan(DepthRecord(clock.now, EstimateInto(c.depth.depths, f, t, g), elapsed), clock.now, true, None)
    case None =>
      TofScan(DepthRecord(clock.now, c.depth.depths, elapsed), c.lastTofTick, false, None)
  }

  /** Some detection among the first `count` has a depth at or within the danger distance. */
  predicate AnyWithin(depths: seq<real>, count: nat, dangerDepthMm: real)
    requires count <= |depths|
  {
    exists i :: 0 <= i < count && depths[i] <= dangerDepthMm
  }

  /** Host-driven decision: red, yellow, blue, green buckets checked in that
      order; a host state in none of them leaves the loop's initial HostReading. */
  function HostDriven(host: HostState, b: Buckets): SystemState {
    if host in b.red then Stopped
    else if host in b.yellow then Warning
    else if host in b.blue then Idle
    else if host in b.green then Active
    else HostReading
  }

  /** The logging record after an iteration: stamped, carrying the current
      state; the detection part replaced only by a new frame, the depth part
      only when a ToF frame was taken or the recorded estimation time is non-zero. */
  function NextLog(prev: LogRecord, logTick: Tick, current: SystemState, read: DetectionRead, scan: TofScan): LogRecord {
    LogRecord(logTick, current,
              if read.isNew then read.frame else prev.detection,
              if scan.newTof || scan.depth.estimationTimeMs > 0 then scan.depth else prev.depth)
  }

  /** Edge-triggered publication: write the state queue only on a change. */
  function Publish(current: SystemState, decided: SystemState): Option<SystemState> {
    if decided != current then Some(decided) else None
  }

  /** state_logic_host_connected. */
  function ConnectedCycle(c: Controller, inbox: Inbox, clock: Clock, cfg: Config): StepResult
    requires StepOk(c, inbox, cfg)
  {
    var host := inbox.hostState.GetOr(c.hostState);
    var decided := HostDriven(host, cfg.buckets);
    var read := ReadDetection(c, inbox, clock.now);
    var scan :=
      if DetectionCount(read.frame) > 0 then ScanTof(c, read.frame, inbox.tof, clock, cfg.grid)
      else NoScan(c, inbox.tof);
    var next := Controller(decided, read.frame, scan.depth, read.lastTick, scan.lastTofTick, host, Connected,
                           NextLog(c.log, clock.logTick, decided, read, scan));
    StepResult(next, Publish(c.current, decided), Inbox(None, None, None, scan.tofRest))
  }

  /** state_logic_host_disconnected. */
  function DisconnectedCycle(c: Controller, inbox: Inbox, clock: Clock, cfg: Config): StepResult
    requires StepOk(c, inbox, cfg)
  {
    var now := clock.now;
    var read := ReadDetection(c, inbox, now);
    var count := DetectionCount(read.frame);
    var tofRemembered := Elapsed(now, c.lastTofTick) <= TofMemoryTimeoutMs;
    var scan :=
      if read.isNew && count > 0 then ScanTof(c, read.frame, inbox.tof, clock, cfg.grid)
      else NoScan(c, inbox.tof);
    var decided :=
      if read.isNew then
        if count > 0 then
          var inDanger :=
            if scan.newTof then AnyWithin(scan.depth.depths, count, cfg.dangerDepthMm)
            else tofRemembered && AnyWithin(c.depth.depths, count, cfg.dangerDepthMm);
          if inDanger then Stopped else Warning
        else Idle
      else if Elapsed(now, c.lastDetectionTick) <= DetectionMemoryTimeoutMs && count > 0 then
        if tofRemembered then
          if AnyWithin(c.depth.depths, count, cfg.dangerDepthMm) then Stopped else Warning
        else Warning
      else Idle;
    var next := Controller(decided, read.frame, scan.depth, read.lastTick, scan.lastTofTick, c.hostState, c.hostCondition,
                           NextLog(c.log, clock.logTick, decided, read, scan));
    StepResult(next, Publish(c.current, decided), Inbox(None, inbox.hostState, None, scan.tofRest))
  }

  /** One loop iteration: read the connection queue, then run the connected
      or the disconnected logic. Whatever the path, the new current state is
      the decided one, the state queue is written exactly when it differs
      from the old one, the logging record carries it, the cached frame
      still fits the depths array, and the connection and detection queues
      are drained. */
  function Step(c: Controller, inbox: Inbox, clock: Clock, cfg: Config): (r: StepResult)
    requires StepOk(c, inbox, cfg)
    ensures Valid(r.next) && |r.next.depth.depths| == |c.depth.depths|
    ensures r.published.Some? <==> r.next.current != c.current
    ensures r.published.Some? ==> r.published.value == r.next.current
    ensures r.next.log.systemState == r.next.current && r.next.log.timestampMs == clock.logTick
    ensures r.next.current in {HostReading, Warning, Stopped, Idle, Active}
    ensures r.next.hostCondition == inbox.connection.GetOr(c.hostCondition)
    ensures r.rest.connection.None? && r.rest.detection.None?
    ensures r.rest.tof.Some? ==> r.rest.tof == inbox.tof
    ensures r.rest.hostState.Some? ==> r.rest.hostState == inbox.hostState
  {
    var condition := inbox.connection.GetOr(c.hostCondition);
    var c' := c.(hostCondition := condition);
    if condition == Connected then ConnectedCycle(c', inbox, clock, cfg)
    else DisconnectedCycle(c', inbox, clock, cfg)
  }
}
