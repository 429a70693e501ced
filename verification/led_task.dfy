/** The Andon light task (src/m7/led_task.cc): at start-up it shows white on
    all three LEDs, then on each state received from the state-update queue
    it re-sends the colour of that state to all three LEDs, but only when
    the state differs from the one already shown. */
module LedTask {
  import opened Wrappers
  import opened SystemEnums
  import opened LedWire

  const White: Color := Color(255, 255, 255)
  const Yellow: Color := Color(255, 255, 0)
  const Red: Color := Color(255, 0, 0)
  const Blue: Color := Color(0, 0, 255)

  /** The Andon colour of a system state. */
  function ColorOf(s: SystemState): Color {
    match s
    case Uninitialized => White
    case Warning => Yellow
    case Stopped => Red
    case _ => Blue
  }

  /** The colour map tells the safety-relevant states apart: red means
      Stopped and only Stopped, yellow only Warning, white only
      Uninitialized, and every other state is blue. */
  lemma ColorMeaning(s: SystemState)
    ensures ColorOf(s) == Red <==> s == Stopped
    ensures ColorOf(s) == Yellow <==> s == Warning
    ensures ColorOf(s) == White <==> s == Uninitialized
    ensures ColorOf(s) == Blue <==> s !in {Stopped, Warning, Uninitialized}
  {
  }

  /** The state the task believes is shown, and the signals sent so far. */
  datatype Led = Led(current: SystemState, emitted: seq<Signal>)

  /** Start-up: reset, then white to each of the three LEDs; state Uninitialized. */
  function Start(): (l: Led)
    ensures l.current == Uninitialized && l.emitted == [Reset] + SendToAll(White)
    ensures DecodeFrame(l.emitted[1..]) == [White, White, White]
  {
    var frame := SendToAll(White);
    FrameRoundTrip(White);
    assert ([Reset] + frame)[1..] == frame;
    Led(Uninitialized, [Reset] + frame)
  }

  /** One wait on the state-update queue: nothing received or the state
      already shown sends nothing; a different state sends its colour to all
      three LEDs and only then becomes the current state. Returns the new
      current state and the signals sent in this iteration. */
  function Step(current: SystemState, received: Option<SystemState>): (r: Led)
    ensures (received.None? || received.value == current) ==> r.current == current && r.emitted == []
    ensures received.Some? && received.value != current ==>
      && r.current == received.value
      && r.emitted == SendToAll(ColorOf(received.value))
      && DecodeFrame(r.emitted) == [ColorOf(received.value), ColorOf(received.value), ColorOf(received.value)]
  {
    match received
    case None => Led(current, [])
    case Some(s) =>
      if s == current then Led(current, [])
      else
        FrameRoundTrip(ColorOf(s));
        Led(s, SendToAll(ColorOf(s)))
  }

  /** The task after further iterations with the given queue reads. */
  function Run(l: Led, received: seq<Option<SystemState>>): Led
    decreases |received|
  {
    if |received| == 0 then l
    else
      var r := Step(l.current, received[0]);
      Run(Led(r.current, l.emitted + r.emitted), received[1..])
  }

  /** The last frame sent is the current state's colour to all three LEDs. */
  predicate ShowsCurrent(l: Led) {
    |l.emitted| >= 72 && l.emitted[|l.emitted| - 72..] == SendToAll(ColorOf(l.current))
  }

  /** What ShowsCurrent means on the LEDs: each of the three latches the
      current state's colour. */
  lemma ShownColors(l: Led)
    requires ShowsCurrent(l)
    ensures DecodeFrame(l.emitted[|l.emitted| - 72..]) == [ColorOf(l.current), ColorOf(l.current), ColorOf(l.current)]
  {
    FrameRoundTrip(ColorOf(l.current));
  }

  /** The LEDs always show the colour of the task's current state: true at
      start-up and kept by every iteration, whatever is received. */
  lemma {:induction false} AlwaysShowsCurrent(l: Led, received: seq<Option<SystemState>>)
    requires ShowsCurrent(l)
    ensures ShowsCurrent(Run(l, received))
    decreases |received|
  {
    if |received| > 0 {
      var r := Step(l.current, received[0]);
      var l' := Led(r.current, l.emitted + r.emitted);
      if r.emitted == [] {
        assert l'.emitted == l.emitted;
      } else {
        assert l'.emitted[|l'.emitted| - 72..] == r.emitted;
      }
      AlwaysShowsCurrent(l', received[1..]);
    }
  }

  /** From start-up, every run leaves the LEDs showing the current state's colour. */
  lemma StartShowsCurrent(received: seq<Option<SystemState>>)
    ensures ShowsCurrent(Run(Start(), received))
  {
    var s := Start();
    assert s.emitted[|s.emitted| - 72..] == s.emitted[1..];
    AlwaysShowsCurrent(s, received);
  }
}
