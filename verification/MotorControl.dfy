/** The mecanum drive of control_callback.c on values: what messages, the 20 ms control tick
    and the watchdog poll do to the requested and current motion. */
module MotorControl {
  import opened Bytes

  const DEFAULT_SPEED := 125
  const ACCEL_STEP := 8
  const DECEL_STEP := 12
  const MAX_SPEED := 255
  const STOP_DELAY_US := 1000000

  datatype Motion = Stop | Forward | Backward | Left | Right | RotateLeft | RotateRight

  /** `ledTime` is the time of the last message or watchdog stop. */
  datatype Control = Control(reqMotion: Motion, reqSpeed: int, curMotion: Motion, curSpeed: int,
                             confSpeed: int, ledTime: int)

  const INITIAL := Control(Stop, 0, Stop, 0, DEFAULT_SPEED, 0)

  function Clamp(speed: int): int {
    if speed < 0 then 0 else if speed > MAX_SPEED then MAX_SPEED else speed
  }

  function SetTarget(c: Control, motion: Motion, speed: int): Control {
    c.(reqMotion := motion, reqSpeed := if motion == Stop then 0 else Clamp(speed))
  }

  // ----- the control tick -----

  function Switch(c: Control): Control {
    if c.curMotion != c.reqMotion && c.curSpeed == 0 then c.(curMotion := c.reqMotion) else c
  }

  function Target(c: Control): int {
    if c.curMotion == c.reqMotion then c.reqSpeed else 0
  }

  function Ramp(speed: int, target: int): int {
    if speed < target then (if speed + ACCEL_STEP > target then target else speed + ACCEL_STEP)
    else if speed > target then (if speed - DECEL_STEP < target then target else speed - DECEL_STEP)
    else speed
  }

  function Tick(c: Control): Control {
    var s := Switch(c);
    var speed := Ramp(s.curSpeed, Target(s));
    s.(curSpeed := if speed <= 0 then 0 else speed)
  }

  // ----- messages and watchdog -----

  function ParseSpeed(c: Control, value: seq<Byte>): int {
    if |value| >= 5 then
      var v := LoadU32(value, 1);
      if v > MAX_SPEED then MAX_SPEED else v
    else c.confSpeed
  }

  /** The motion that a message type asks for. */
  function MotionOf(kind: Byte): (m: Motion)
    requires kind in {8, 2, 4, 5, 6, 7, 9}
  {
    if kind == 8 then Forward
    else if kind == 2 then Backward
    else if kind == 4 then Left
    else if kind == 6 then Right
    else if kind == 7 then RotateLeft
    else if kind == 9 then RotateRight
    else Stop
  }

  /** Type 66 reboots the board and leaves everything as it is until then. */
  predicate Restarts(value: seq<Byte>) {
    value != [] && value[0] == 66
  }

  function Message(c: Control, value: seq<Byte>, now: int): Control {
    if value == [] || Restarts(value) then c
    else
      var speed := ParseSpeed(c, value);
      var d := if value[0] in {8, 2, 4, 5, 6, 7, 9} then SetTarget(c, MotionOf(value[0]), speed)
               else if value[0] == 10 then
                 c.(confSpeed := speed, reqSpeed := if c.reqMotion != Stop then speed else c.reqSpeed)
               else c;
      d.(ledTime := now)
  }

  function Poll(c: Control, now: int): Control {
    if now - c.ledTime > STOP_DELAY_US then SetTarget(c, Stop, 0).(ledTime := now) else c
  }

  // ----- what always holds -----

  predicate Sound(c: Control) {
    && 0 <= c.reqSpeed <= MAX_SPEED && 0 <= c.curSpeed <= MAX_SPEED && 0 <= c.confSpeed <= MAX_SPEED
    && (c.reqMotion == Stop ==> c.reqSpeed == 0)
    && (c.curMotion == Stop ==> c.curSpeed == 0)
  }

  /** A tick keeps the control sound, moves the speed by +8 or -12 at most, and changes the
      direction of travel only from standstill. */
  lemma TickIsGentle(c: Control)
    requires Sound(c)
    ensures Sound(Tick(c)) && -DECEL_STEP <= Tick(c).curSpeed - c.curSpeed <= ACCEL_STEP
    ensures Tick(c).curMotion != c.curMotion ==> c.curSpeed == 0 && Tick(c).curMotion == c.reqMotion
    ensures Tick(c).reqMotion == c.reqMotion && Tick(c).reqSpeed == c.reqSpeed
    ensures Tick(c).confSpeed == c.confSpeed && Tick(c).ledTime == c.ledTime
  {
  }

  lemma MessageIsSound(c: Control, value: seq<Byte>, now: int)
    requires Sound(c)
    ensures Sound(Message(c, value, now)) && Message(c, value, now).curSpeed == c.curSpeed
    ensures Message(c, value, now).curMotion == c.curMotion
  {
    if |value| >= 5 {
      LittleUnfolded(value[1..5]);
    }
  }

  // ----- what each message does -----

  /** A message asks for speed v: the 32-bit word behind its type, least significant byte first,
      but no more than 255; without the word, the configured speed. */
  predicate Asks(value: seq<Byte>, v: int, configured: int) {
    if |value| < 5 then v == configured
    else
      var b0: int, b1: int, b2: int, b3: int := value[1], value[2], value[3], value[4];
      var word := b0 + 256 * b1 + 65536 * b2 + 16777216 * b3;
      v == if word <= 255 then word else 255
  }

  /** Type by type, what a message changes: the six motions, the stop, the configured speed (at
      once, if a motion is requested), the reboot that changes nothing, and nothing but the time
      stamp for every other type. */
  predicate Obeys(c: Control, d: Control, value: seq<Byte>, now: int) {
    if value == [] || value[0] == 66 then d == c
    else
      && d.curMotion == c.curMotion && d.curSpeed == c.curSpeed && d.ledTime == now
      && (value[0] == 8 ==> d.reqMotion == Forward && Asks(value, d.reqSpeed, c.confSpeed))
      && (value[0] == 2 ==> d.reqMotion == Backward && Asks(value, d.reqSpeed, c.confSpeed))
      && (value[0] == 4 ==> d.reqMotion == Left && Asks(value, d.reqSpeed, c.confSpeed))
      && (value[0] == 6 ==> d.reqMotion == Right && Asks(value, d.reqSpeed, c.confSpeed))
      && (value[0] == 7 ==> d.reqMotion == RotateLeft && Asks(value, d.reqSpeed, c.confSpeed))
      && (value[0] == 9 ==> d.reqMotion == RotateRight && Asks(value, d.reqSpeed, c.confSpeed))
      && (value[0] == 5 ==> d.reqMotion == Stop && d.reqSpeed == 0)
      && (value[0] != 10 ==> d.confSpeed == c.confSpeed)
      && (value[0] == 10 ==>
            && Asks(value, d.confSpeed, c.confSpeed) && d.reqMotion == c.reqMotion
            && d.reqSpeed == if c.reqMotion == Stop then c.reqSpeed else d.confSpeed)
      && (value[0] !in {8, 2, 4, 5, 6, 7, 9, 10} ==> d.reqMotion == c.reqMotion && d.reqSpeed == c.reqSpeed)
  }

  lemma SpeedIsAsked(c: Control, value: seq<Byte>)
    requires Sound(c)
    ensures Asks(value, ParseSpeed(c, value), c.confSpeed) && 0 <= ParseSpeed(c, value) <= 255
  {
    if |value| >= 5 {
      LittleUnfolded(value[1..5]);
    }
  }

  lemma MessageObeys(c: Control, value: seq<Byte>, now: int)
    requires Sound(c)
    ensures Obeys(c, Message(c, value, now), value, now)
    ensures Restarts(value) <==> value != [] && value[0] == 66
  {
    SpeedIsAsked(c, value);
  }

  // ----- convergence -----

  predicate Converged(c: Control) {
    c.curMotion == c.reqMotion && c.curSpeed == c.reqSpeed
  }

  function Ceil(x: nat, step: nat): nat
    requires step > 0
  {
    (x + step - 1) / step
  }

  /** The number of ticks until the request is reached, exactly. */
  function TicksLeft(c: Control): nat
    requires Sound(c)
  {
    if c.curMotion == c.reqMotion then
      if c.curSpeed <= c.reqSpeed then Ceil(c.reqSpeed - c.curSpeed, ACCEL_STEP)
      else Ceil(c.curSpeed - c.reqSpeed, DECEL_STEP)
    else
      var up := Ceil(c.reqSpeed, ACCEL_STEP);
      Ceil(c.curSpeed, DECEL_STEP) + if up == 0 then 1 else up
  }

  function Ticks(c: Control, n: nat): Control
    decreases n
  {
    if n == 0 then c else Ticks(Tick(c), n - 1)
  }

  lemma TickCounts(c: Control)
    requires Sound(c)
    ensures Sound(Tick(c))
    ensures Converged(c) <==> TicksLeft(c) == 0
    ensures Converged(c) ==> Tick(c) == c
    ensures !Converged(c) ==> TicksLeft(Tick(c)) == TicksLeft(c) - 1
    ensures TicksLeft(c) <= 54
  {
  }

  /** With the request held fixed, motion and speed equal it after n ticks if and only if n
      reaches TicksLeft, which never exceeds 54. */
  lemma {:induction false} ConvergesExactly(c: Control, n: nat)
    requires Sound(c)
    ensures Sound(Ticks(c, n)) && (Converged(Ticks(c, n)) <==> n >= TicksLeft(c))
    ensures TicksLeft(c) <= 54
    decreases n
  {
    TickCounts(c);
    if n > 0 {
      ConvergesExactly(Tick(c), n - 1);
      TickCounts(Tick(c));
    }
  }

  /** The bound is reached: full speed forward turned into full speed backward. */
  lemma ReversalTakes54()
    ensures var c := Control(Backward, 255, Forward, 255, 125, 0);
            Sound(c) && TicksLeft(c) == 54 && !Converged(Ticks(c, 53)) && Converged(Ticks(c, 54))
  {
    var c := Control(Backward, 255, Forward, 255, 125, 0);
    ConvergesExactly(c, 53);
    ConvergesExactly(c, 54);
  }

  /** A requested stop brings the speed to 0 exactly from tick Ceil(speed, 12) on, at the
      latest from tick 22 on, and it stays there. */
  lemma {:induction false} StopsWithin22(c: Control, n: nat)
    requires Sound(c) && c.reqMotion == Stop
    ensures Ticks(c, n).curSpeed == 0 <==> n >= Ceil(c.curSpeed, DECEL_STEP)
    ensures Ceil(c.curSpeed, DECEL_STEP) <= 22
    decreases n
  {
    if n > 0 {
      TickIsGentle(c);
      StopsWithin22(Tick(c), n - 1);
    }
  }

  // ----- runs -----

  datatype Event = TickEvent | MessageEvent(value: seq<Byte>, at: int) | PollEvent(at: int)

  function Step(c: Control, e: Event): Control {
    match e
    case TickEvent => Tick(c)
    case MessageEvent(value, at) => Message(c, value, at)
    case PollEvent(at) => Poll(c, at)
  }

  /** The state after the first k events of a run. */
  function After(events: seq<Event>, k: nat): Control
    requires k <= |events|
  {
    if k == 0 then INITIAL else Step(After(events, k - 1), events[k - 1])
  }

  /** A message that reaches the handler. */
  predicate Heard(e: Event) {
    e.MessageEvent? && e.value != [] && !Restarts(e.value)
  }

  lemma {:induction false} AlwaysSound(events: seq<Event>, k: nat)
    requires k <= |events|
    ensures Sound(After(events, k))
  {
    if k > 0 {
      AlwaysSound(events, k - 1);
      var c := After(events, k - 1);
      match events[k - 1]
      case TickEvent => TickIsGentle(c);
      case MessageEvent(value, at) => MessageIsSound(c, value, at);
      case PollEvent(at) =>
    }
  }

  /** Since event j (or since power-up when j == 0) no message has been heard up to event k. */
  predicate SilentSince(events: seq<Event>, j: nat, k: nat)
    requires j <= k <= |events|
  {
    forall i :: j <= i < k ==> !Heard(events[i])
  }

  /** While nothing is heard, either the time stamp is still that of the last message or
      the watchdog has already asked for a stop. */
  lemma {:induction false} SilenceKeepsStampOrStops(events: seq<Event>, j: nat, k: nat)
    requires j <= k <= |events| && SilentSince(events, j, k)
    ensures After(events, k).ledTime == After(events, j).ledTime
            || (After(events, k).reqMotion == Stop && After(events, k).reqSpeed == 0)
    decreases k - j
  {
    if j < k {
      SilenceKeepsStampOrStops(events, j, k - 1);
      assert !Heard(events[k - 1]);
    }
  }

  /** The watchdog: if the last heard message is event j - 1, at time t, and a poll happens
      more than a second after t with no message in between, then after the poll a stop is
      requested, and stays requested while nothing is heard. */
  lemma WatchdogStops(events: seq<Event>, j: nat, k: nat, m: nat)
    requires 0 < j < k <= m <= |events| && Heard(events[j - 1]) && SilentSince(events, j, m)
    requires events[k - 1].PollEvent? && events[k - 1].at - events[j - 1].at > STOP_DELAY_US
    ensures After(events, m).reqMotion == Stop && After(events, m).reqSpeed == 0
  {
    assert After(events, j).ledTime == events[j - 1].at;
    SilenceKeepsStampOrStops(events, j, k - 1);
    StopStays(events, k, m);
  }

  lemma {:induction false} StopStays(events: seq<Event>, k: nat, m: nat)
    requires k <= m <= |events| && SilentSince(events, k, m)
    requires After(events, k).reqMotion == Stop && After(events, k).reqSpeed == 0
    ensures After(events, m).reqMotion == Stop && After(events, m).reqSpeed == 0
    decreases m - k
  {
    if k < m {
      StopStays(events, k, m - 1);
      assert !Heard(events[m - 1]);
    }
  }

  /** Control ticks among the events k..m. */
  function TicksIn(events: seq<Event>, k: nat, m: nat): nat
    requires k <= m <= |events|
    decreases m - k
  {
    if k == m then 0 else TicksIn(events, k, m - 1) + if events[m - 1].TickEvent? then 1 else 0
  }

  /** While a stop is requested and nothing is heard, every tick takes 12 from the speed, down
      to 0, whatever else happens between the ticks. */
  lemma {:induction false} SpeedFalls(events: seq<Event>, k: nat, m: nat)
    requires k <= m <= |events| && SilentSince(events, k, m)
    requires After(events, k).reqMotion == Stop && After(events, k).reqSpeed == 0
    ensures var left := After(events, k).curSpeed - DECEL_STEP * TicksIn(events, k, m);
            After(events, m).curSpeed == if left > 0 then left else 0
    decreases m - k
  {
    AlwaysSound(events, k);
    if k < m {
      SpeedFalls(events, k, m - 1);
      StopStays(events, k, m - 1);
      AlwaysSound(events, m - 1);
      assert !Heard(events[m - 1]);
    }
  }

  /** A silent second, and 22 ticks in whatever silent sequence of events follows, leave the
      drive at zero speed. */
  lemma SilenceBringsStandstill(events: seq<Event>, j: nat, k: nat, m: nat)
    requires 0 < j < k <= m <= |events| && Heard(events[j - 1]) && SilentSince(events, j, m)
    requires events[k - 1].PollEvent? && events[k - 1].at - events[j - 1].at > STOP_DELAY_US
    requires TicksIn(events, k, m) >= 22
    ensures After(events, m).curSpeed == 0
  {
    WatchdogStops(events, j, k, k);
    AlwaysSound(events, k);
    SpeedFalls(events, k, m);
  }
}
