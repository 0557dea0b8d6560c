/** The same drive as the object that control_callback.c is: static variables, a port
    expander with two direction pins per motor, and four PWM duties. */
module MotorDriver {
  import opened Bytes
  import opened MotorControl

  const MOTORS := 4

  /** Which of the motors a, b, c, d turn forward. */
  function Pattern(motion: Motion): (front: seq<bool>)
    requires motion != Stop
    ensures |front| == MOTORS
  {
    match motion
    case Forward => [true, true, true, true]
    case Backward => [false, false, false, false]
    case Left => [true, false, true, false]
    case Right => [false, true, false, true]
    case RotateLeft => [true, false, false, true]
    case RotateRight => [false, true, true, false]
  }

  function Distance(a: int, b: int): nat {
    if a < b then b - a else a - b
  }

  class Driver {
    // control_callback.c's statics
    var requestedMotion: Motion
    var requestedSpeed: int
    var currentMotion: Motion
    var currentSpeed: int
    var configuredSpeed: int
    var ledUpdatedTime: int

    // the hardware: pins BIN1 and BIN2 of each motor, and its duty
    var bin1: seq<bool>
    var bin2: seq<bool>
    var duty: seq<int>

    /** Set as soon as a direction pin is written while some motor has power. */
    ghost var violated: bool

    function Controls(): Control
      reads this
    {
      Control(requestedMotion, requestedSpeed, currentMotion, currentSpeed, configuredSpeed, ledUpdatedTime)
    }

    predicate Drives(motion: Motion)
      reads this
      requires motion != Stop && |bin1| == |bin2| == MOTORS
    {
      bin2 == Pattern(motion) && forall i :: 0 <= i < MOTORS ==> bin1[i] == !Pattern(motion)[i]
    }

    predicate AllDuties(v: int)
      reads this
    {
      duty == [v, v, v, v]
    }

    /** The interlock: no pin was ever written under power, all four duties equal the
        current speed, and under power the pins show the current motion. */
    ghost predicate Valid()
      reads this
    {
      && Sound(Controls()) && !violated
      && |bin1| == |bin2| == MOTORS && AllDuties(currentSpeed)
      && (currentMotion != Stop ==> Drives(currentMotion))
    }

    constructor ()
      ensures Valid() && Controls() == INITIAL
    {
      requestedMotion, requestedSpeed, currentMotion, currentSpeed := Stop, 0, Stop, 0;
      configuredSpeed, ledUpdatedTime := DEFAULT_SPEED, 0;
      bin1, bin2, duty := seq(MOTORS, _ => false), seq(MOTORS, _ => false), [0, 0, 0, 0];
      violated := false;
    }

    method SetDirection(motor: nat, front: bool)
      requires motor < MOTORS && |bin1| == |bin2| == MOTORS
      modifies this`bin1, this`bin2, this`violated
      ensures bin1 == old(bin1)[motor := !front] && bin2 == old(bin2)[motor := front]
      ensures violated == (old(violated) || !AllDuties(0))
    {
      bin1 := bin1[motor := !front];
      bin2 := bin2[motor := front];
      violated := violated || !AllDuties(0);
    }

    method SetSpeed(a: int, b: int, c: int, d: int)
      modifies this`duty
      ensures duty == [a, b, c, d]
    {
      duty := [a, b, c, d];
    }

    /** apply_motion_direction: the pins of a motion, with zero duty. */
    method ApplyDirection(motion: Motion)
      requires |bin1| == |bin2| == MOTORS && AllDuties(0)
      modifies this`bin1, this`bin2, this`violated, this`duty
      ensures |bin1| == |bin2| == MOTORS && AllDuties(0) && violated == old(violated)
      ensures motion != Stop ==> Drives(motion)
      ensures motion == Forward ==> bin2 == [true, true, true, true] && bin1 == [false, false, false, false]
      ensures motion == Backward ==> bin2 == [false, false, false, false] && bin1 == [true, true, true, true]
      ensures motion == Left ==> bin2 == [true, false, true, false] && bin1 == [false, true, false, true]
      ensures motion == Right ==> bin2 == [false, true, false, true] && bin1 == [true, false, true, false]
      ensures motion == RotateLeft ==> bin2 == [true, false, false, true] && bin1 == [false, true, true, false]
      ensures motion == RotateRight ==> bin2 == [false, true, true, false] && bin1 == [true, false, false, true]
      ensures motion == Stop ==> bin1 == old(bin1) && bin2 == old(bin2)
    {
      if motion != Stop {
        var front := Pattern(motion);
        SetDirection(0, front[0]);
        SetDirection(1, front[1]);
        SetDirection(2, front[2]);
        SetDirection(3, front[3]);
        assert bin2 == [front[0], front[1], front[2], front[3]] == front;
        SetSpeed(0, 0, 0, 0);
      }
    }

    method SetMotionTarget(motion: Motion, speed: int)
      modifies this`requestedMotion, this`requestedSpeed
      ensures Controls() == SetTarget(old(Controls()), motion, speed)
      ensures 0 <= requestedSpeed <= MAX_SPEED && (motion == Stop ==> requestedSpeed == 0)
      ensures motion != Stop ==>
                forall v :: 0 <= v <= MAX_SPEED ==> Distance(requestedSpeed, speed) <= Distance(v, speed)
      ensures old(Sound(Controls())) ==> Sound(Controls())
    {
      var v := speed;
      if v < 0 {
        v := 0;
      } else if v > MAX_SPEED {
        v := MAX_SPEED;
      }
      requestedMotion := motion;
      requestedSpeed := if motion == Stop then 0 else v;
    }

    /** One pass of motor_control_task. */
    method ControlTick()
      requires Valid()
      modifies this
      ensures Valid() && Controls() == Tick(old(Controls()))
      ensures forall i :: 0 <= i < MOTORS ==> -DECEL_STEP <= duty[i] - old(duty)[i] <= ACCEL_STEP
      ensures bin1 != old(bin1) || bin2 != old(bin2) ==> old(AllDuties(0))
    {
      TickIsGentle(Controls());
      if currentMotion != requestedMotion && currentSpeed == 0 {
        currentMotion := requestedMotion;
        if currentMotion != Stop {
          ApplyDirection(currentMotion);
        }
      }
      var target := 0;
      if currentMotion == requestedMotion {
        target := requestedSpeed;
      }
      if currentSpeed < target {
        currentSpeed := currentSpeed + ACCEL_STEP;
        if currentSpeed > target {
          currentSpeed := target;
        }
      } else if currentSpeed > target {
        currentSpeed := currentSpeed - DECEL_STEP;
        if currentSpeed < target {
          currentSpeed := target;
        }
      }
      if currentSpeed <= 0 {
        currentSpeed := 0;
        SetSpeed(0, 0, 0, 0);
      } else {
        SetSpeed(currentSpeed, currentSpeed, currentSpeed, currentSpeed);
      }
    }

    /** HandleControlMessage; the result tells whether the board reboots. */
    method HandleMessage(value: seq<Byte>, now: int) returns (restart: bool)
      requires Valid()
      modifies this`requestedMotion, this`requestedSpeed, this`configuredSpeed, this`ledUpdatedTime
      ensures Valid() && Controls() == Message(old(Controls()), value, now)
      ensures restart <==> value != [] && value[0] == 66
      ensures Obeys(old(Controls()), Controls(), value, now)
    {
      MessageIsSound(Controls(), value, now);
      MessageObeys(Controls(), value, now);
      if value == [] {
        return false;
      }
      var speed := ParseSpeed(Controls(), value);
      var kind := value[0];
      if kind == 66 {
        return true;
      } else if kind == 8 {
        SetMotionTarget(Forward, speed);
      } else if kind == 2 {
        SetMotionTarget(Backward, speed);
      } else if kind == 4 {
        SetMotionTarget(Left, speed);
      } else if kind == 5 {
        SetMotionTarget(Stop, 0);
      } else if kind == 6 {
        SetMotionTarget(Right, speed);
      } else if kind == 7 {
        SetMotionTarget(RotateLeft, speed);
      } else if kind == 9 {
        SetMotionTarget(RotateRight, speed);
      } else if kind == 10 {
        configuredSpeed := speed;
        if requestedMotion != Stop {
          requestedSpeed := configuredSpeed;
        }
      }
      ledUpdatedTime := now;
      restart := false;
    }

    /** UpdateLed. */
    method UpdateLed(now: int)
      requires Valid()
      modifies this`requestedMotion, this`requestedSpeed, this`ledUpdatedTime
      ensures Valid() && Controls() == Poll(old(Controls()), now)
      ensures now - old(ledUpdatedTime) > 1000000 ==>
                requestedMotion == Stop && requestedSpeed == 0 && ledUpdatedTime == now
      ensures now - old(ledUpdatedTime) <= 1000000 ==>
                && requestedMotion == old(requestedMotion) && requestedSpeed == old(requestedSpeed)
                && ledUpdatedTime == old(ledUpdatedTime)
    {
      if now - ledUpdatedTime > STOP_DELAY_US {
        ledUpdatedTime := now;
        SetMotionTarget(Stop, 0);
      }
    }
  }
}
