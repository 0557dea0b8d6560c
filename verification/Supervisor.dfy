/** The WebRTC supervisor of main.c: MQTT commands, the two-second control loop and the
    network handler act on three time stamps and on the WebRTC session. */
module Supervisor {

  const HEARTBEAT_TIMEOUT := 45000
  const RECOVER_TIMEOUT := 20000
  const RECOVER_COOLDOWN := 15000

  /** `running` and `connected` are the session's own flags; the rest are the statics. */
  datatype State = State(running: bool, connected: bool, heartbeat: int, lastOpen: int, lastRecover: int)

  const INITIAL := State(false, false, 0, 0, 0)

  /** start_webrtc, which first tears a running session down; it may fail. */
  function StartSession(s: State, ok: bool): State {
    s.(running := ok, connected := false)
  }

  function StopSession(s: State): State {
    s.(running := false, connected := false)
  }

  /** OPEN_WEBRTC and HEARTBEAT. */
  function KeepAlive(s: State, now: int, ok: bool): State {
    var k := s.(heartbeat := now, lastOpen := now);
    if s.running then k else StartSession(k, ok)
  }

  function Close(s: State): State {
    StopSession(s.(lastOpen := 0))
  }

  predicate Recovers(s: State, now: int) {
    && s.running && !s.connected && s.lastOpen > 0
    && now - s.lastOpen <= HEARTBEAT_TIMEOUT && now - s.lastOpen > RECOVER_TIMEOUT
    && now - s.lastRecover > RECOVER_COOLDOWN
  }

  predicate Expired(s: State, now: int) {
    s.running && s.heartbeat > 0 && now - s.heartbeat > HEARTBEAT_TIMEOUT
  }

  /** mqtt_control_loop. */
  function Loop(s: State, now: int, ok: bool): State {
    if Recovers(s, now) then StartSession(StopSession(s.(lastRecover := now)), ok)
    else if Expired(s, now) then StopSession(s).(heartbeat := 0, lastOpen := 0)
    else s
  }

  function NetworkDown(s: State): State {
    StopSession(s).(heartbeat := 0, lastOpen := 0, lastRecover := 0)
  }

  datatype Event =
    | KeepAliveEvent(now: int, ok: bool)
    | CloseEvent
    | LoopEvent(now: int, ok: bool)
    | NetworkDownEvent
    | SessionEvent(connected: bool)    // the session connects or loses its peer

  function Step(s: State, e: Event): State {
    match e
    case KeepAliveEvent(now, ok) => KeepAlive(s, now, ok)
    case CloseEvent => Close(s)
    case LoopEvent(now, ok) => Loop(s, now, ok)
    case NetworkDownEvent => NetworkDown(s)
    case SessionEvent(connected) => if s.running then s.(connected := connected) else s
  }

  function After(events: seq<Event>, k: nat): State
    requires k <= |events|
  {
    if k == 0 then INITIAL else Step(After(events, k - 1), events[k - 1])
  }

  /** The two stamps never disagree: the last open request is cleared or equals the last
      heartbeat. */
  lemma {:induction false} StampsAgree(events: seq<Event>, k: nat)
    requires k <= |events|
    ensures var s := After(events, k); s.lastOpen == 0 || s.lastOpen == s.heartbeat
  {
    if k > 0 {
      StampsAgree(events, k - 1);
    }
  }

  /** Only a running session is connected. */
  lemma {:induction false} ConnectedRuns(events: seq<Event>, k: nat)
    requires k <= |events|
    ensures After(events, k).connected ==> After(events, k).running
  {
    if k > 0 {
      ConnectedRuns(events, k - 1);
    }
  }

  /** Recovery and heartbeat stop never compete, and a pass that finds the heartbeat expired
      ends with WebRTC stopped and both stamps cleared. */
  lemma ExpiredPassStops(events: seq<Event>, k: nat, now: int, ok: bool)
    requires k <= |events|
    ensures var s := After(events, k);
            && !(Recovers(s, now) && Expired(s, now))
            && (Expired(s, now) ==> var t := Loop(s, now, ok); !t.running && t.heartbeat == 0 && t.lastOpen == 0)
  {
    StampsAgree(events, k);
  }

  // ----- what silence leads to -----

  /** Event j - 1 is a keep-alive, and up to event k neither another one, nor a close, nor a lost
      network has followed. */
  predicate LastKeepAlive(events: seq<Event>, j: nat, k: nat) {
    && 0 < j <= k <= |events| && events[j - 1].KeepAliveEvent?
    && forall i :: j <= i < k ==> events[i].LoopEvent? || events[i].SessionEvent?
  }

  /** Until it expires the keep-alive stands in both stamps; then the session is stopped. */
  lemma {:induction false} StampsStand(events: seq<Event>, j: nat, k: nat)
    requires LastKeepAlive(events, j, k)
    ensures var s, t := After(events, k), events[j - 1].now;
            (s.heartbeat == t && s.lastOpen == t) || (!s.running && s.heartbeat == 0 && s.lastOpen == 0)
    decreases k - j
  {
    if j < k {
      StampsStand(events, j, k - 1);
    }
  }

  /** A pass of the loop more than 45 s after the last keep-alive leaves the session stopped. */
  lemma SilenceStops(events: seq<Event>, j: nat, k: nat)
    requires LastKeepAlive(events, j, k) && j < k && events[j - 1].now > 0
    requires events[k - 1].LoopEvent? && events[k - 1].now - events[j - 1].now > 45000
    ensures !After(events, k).running
  {
    StampsStand(events, j, k - 1);
  }

  /** A pass more than 20 s and at most 45 s after it, more than 15 s after the last recovery,
      restarts a session that has not connected, and notes the recovery; and no other pass in
      those 45 s touches the session. */
  lemma StuckIsRestarted(events: seq<Event>, j: nat, k: nat)
    requires LastKeepAlive(events, j, k) && j < k && events[j - 1].now > 0
    requires events[k - 1].LoopEvent? && events[k - 1].now - events[j - 1].now <= 45000
    ensures var s, e := After(events, k - 1), events[k - 1];
            var stuck :=
              s.running && !s.connected && e.now - events[j - 1].now > 20000 && e.now - s.lastRecover > 15000;
            After(events, k) == if stuck then State(e.ok, false, s.heartbeat, s.lastOpen, e.now) else s
  {
    StampsStand(events, j, k - 1);
  }

  /** Recoveries among the events j..k. */
  function Recoveries(events: seq<Event>, j: nat, k: nat): nat
    requires j <= k <= |events|
    decreases k - j
  {
    if j == k then 0
    else
      Recoveries(events, j, k - 1)
      + if events[k - 1].LoopEvent? && Recovers(After(events, k - 1), events[k - 1].now) then 1 else 0
  }

  /** Each recovery pushes lastRecover further behind the open request. */
  lemma {:induction false} RecoveriesSpread(events: seq<Event>, j: nat, k: nat)
    requires j <= k <= |events| && forall i :: j <= i < k ==> !events[i].KeepAliveEvent?
    ensures var s := After(events, k); var n := Recoveries(events, j, k);
            && n <= 2
            && (s.lastOpen > 0 && n > 0 ==> s.lastRecover > s.lastOpen + RECOVER_TIMEOUT + (n - 1) * RECOVER_COOLDOWN)
    decreases k - j
  {
    if j < k {
      RecoveriesSpread(events, j, k - 1);
    }
  }

  /** However long the session fails to connect, there are at most two recoveries between
      one OPEN or HEARTBEAT and the next. */
  lemma AtMostTwoRecoveries(events: seq<Event>, j: nat, k: nat)
    requires j <= k <= |events| && forall i :: j <= i < k ==> !events[i].KeepAliveEvent?
    ensures Recoveries(events, j, k) <= 2
  {
    RecoveriesSpread(events, j, k);
  }

  /** Two do happen: a session that never connects is restarted 20 001 and 35 002 ms after
      its request. */
  lemma TwoRecoveriesHappen()
    ensures var events := [KeepAliveEvent(100000, true), LoopEvent(120001, true), LoopEvent(135002, true)];
            Recoveries(events, 1, 3) == 2
  {
    var events := [KeepAliveEvent(100000, true), LoopEvent(120001, true), LoopEvent(135002, true)];
    assert After(events, 0) == INITIAL;
    assert After(events, 1) == State(true, false, 100000, 100000, 0);
    assert After(events, 2) == State(true, false, 100000, 100000, 120001);
    assert Recoveries(events, 1, 1) == 0 && Recoveries(events, 1, 2) == 1;
  }

  // ----- the statics of main.c -----

  class Control {
    var running: bool
    var connected: bool
    var heartbeatMs: int
    var openRequestMs: int
    var recoverMs: int

    function Current(): State
      reads this
    {
      State(running, connected, heartbeatMs, openRequestMs, recoverMs)
    }

    /** The two stamps agree. */
    predicate Valid()
      reads this
    {
      openRequestMs == 0 || openRequestMs == heartbeatMs
    }

    constructor ()
      ensures Valid() && Current() == INITIAL
    {
      running, connected, heartbeatMs, openRequestMs, recoverMs := false, false, 0, 0, 0;
    }

    method Start(ok: bool)
      modifies this`running, this`connected
      ensures Current() == StartSession(old(Current()), ok)
    {
      running, connected := ok, false;
    }

    method Stop()
      modifies this`running, this`connected
      ensures Current() == StopSession(old(Current()))
    {
      running, connected := false, false;
    }

    /** mqtt_control_cmd_handler. */
    method Command(cmd: string, now: int, ok: bool)
      requires Valid()
      modifies this
      ensures Valid()
      ensures cmd == "OPEN_WEBRTC" || cmd == "HEARTBEAT" ==>
                && heartbeatMs == now && openRequestMs == now && recoverMs == old(recoverMs)
                && running == (old(running) || ok) && connected == (old(running) && old(connected))
                && forall later :: later - now <= 45000 ==> !Expired(Current(), later)
      ensures cmd == "CLOSE_WEBRTC" ==>
                && !running && !connected && openRequestMs == 0
                && heartbeatMs == old(heartbeatMs) && recoverMs == old(recoverMs)
                && forall later :: !Recovers(Current(), later)
      ensures cmd !in ["OPEN_WEBRTC", "HEARTBEAT", "CLOSE_WEBRTC"] ==> Current() == old(Current())
      ensures Current() == if cmd == "OPEN_WEBRTC" || cmd == "HEARTBEAT" then KeepAlive(old(Current()), now, ok)
                           else if cmd == "CLOSE_WEBRTC" then Close(old(Current())) else old(Current())
    {
      if cmd == "OPEN_WEBRTC" {
        heartbeatMs := now;
        openRequestMs := now;
        if !running {
          Start(ok);
        }
      } else if cmd == "CLOSE_WEBRTC" {
        openRequestMs := 0;
        Stop();
      } else if cmd == "HEARTBEAT" {
        heartbeatMs := now;
        openRequestMs := now;
        if !running {
          Start(ok);
        }
      }
    }

    /** mqtt_control_loop. */
    method ControlLoop(now: int, ok: bool)
      requires Valid()
      modifies this
      ensures Valid()
      ensures old(Expired(Current(), now)) <==>
                old(running) && old(heartbeatMs) > 0 && now - old(heartbeatMs) > 45000
      ensures old(Recovers(Current(), now)) <==>
                && old(running) && !old(connected) && old(openRequestMs) > 0
                && 20000 < now - old(openRequestMs) <= 45000 && now - old(recoverMs) > 15000
      ensures old(Expired(Current(), now)) ==>
                heartbeatMs == 0 && openRequestMs == 0 && recoverMs == old(recoverMs) && !running && !connected
                && forall later :: !Recovers(Current(), later) && !Expired(Current(), later)
      ensures old(Recovers(Current(), now)) ==>
                && running == ok && !connected && recoverMs == now
                && heartbeatMs == old(heartbeatMs) && openRequestMs == old(openRequestMs)
                && forall later :: later - now <= 15000 ==> !Recovers(Current(), later)
      ensures !old(Expired(Current(), now)) && !old(Recovers(Current(), now)) ==> Current() == old(Current())
      ensures Current() == Loop(old(Current()), now, ok)
    {
      if running && !connected {
        var openRequestedRecently := openRequestMs > 0 && now - openRequestMs <= HEARTBEAT_TIMEOUT;
        var connectStuck := openRequestMs > 0 && now - openRequestMs > RECOVER_TIMEOUT;
        var cooldownOk := now - recoverMs > RECOVER_COOLDOWN;
        if openRequestedRecently && connectStuck && cooldownOk {
          recoverMs := now;
          Stop();
          Start(ok);
          return;
        }
      }
      if running && heartbeatMs > 0 && now - heartbeatMs > HEARTBEAT_TIMEOUT {
        Stop();
        heartbeatMs := 0;
        openRequestMs := 0;
      }
    }

    /** The disconnect branch of network_event_handler. */
    method NetworkLost()
      modifies this
      ensures Valid() && Current() == INITIAL
      ensures Current() == NetworkDown(old(Current()))
    {
      Stop();
      heartbeatMs, openRequestMs, recoverMs := 0, 0, 0;
    }
  }
}
