/** The pause, resume and exit handshake of esp_webrtc.c between pc_task and two control
    threads: the signaling thread, on which BYE messages and ICE information arrive, and the
    application thread, which enables, disables and stops.  They are interleaved at every read
    and write of the shared flags and at every bit operation; nothing serialises the two
    control threads. */
module PeerTask {
  import opened Wrappers

  datatype Task =
    | TNone                // not created
    | TTop                 // about to test running
    | TPauseTest           // saw running, about to test pause
    | TMain                // inside esp_peer_main_loop
    | TSetPaused           // saw pause, about to set PAUSED
    | TWaitResume          // waiting for RESUME
    | TClearResume         // saw RESUME, about to clear it
    | TSetExit             // left the loop, about to set EXIT
    | TGone

  /** The signaling thread. */
  datatype Signal =
    | SIdle
    | SByeTest(reconnect: bool)        // running was true, about to test pause
    | SRequest(reconnect: bool)        // pause was false, about to set it
    | SWaitPaused(reconnect: bool)     // waiting for PAUSED
    | SClearPaused(reconnect: bool)    // saw PAUSED, about to clear it
    | SExclusive(reconnect: bool)      // disconnects, stops the stream, opens a new connection
    | SResumeTest                      // about to test pause in order to resume
    | SUnpause                         // pause was true, about to clear it
    | SSetResume                       // cleared pause, about to set RESUME

  /** The application thread. */
  datatype App =
    | AIdle
    | AResumeTest                      // enabling: about to test pause
    | AUnpause                         // enabling: pause was true, about to clear it
    | ASetResume                       // enabling: cleared pause, about to set RESUME
    | ACloseTest(still: bool)          // closing: read running, about to test pause
    | ACloseUnpause(still: bool)       // closing: pause was true, about to clear it
    | ACloseResume(still: bool)        // closing: cleared pause, about to set RESUME
    | AStopRunning(still: bool)        // closing: about to clear running
    | AWaitExit                        // waiting for EXIT
    | AClearExit                       // saw EXIT, about to clear it
    | AClosePeer                       // about to close the peer
    | ADestroy                         // about to destroy the event group

  datatype Flags = Flags(running: bool, pause: bool)
  datatype Bits = Bits(exit: bool, paused: bool, resume: bool)

  /** `peer` and `group` tell whether the peer and the event group exist. */
  datatype Sys = Sys(f: Flags, b: Bits, peer: bool, group: bool, t: Task, s: Signal, a: App)

  const START := Sys(Flags(false, false), Bits(false, false, false), false, false, TNone, SIdle, AIdle)

  // ----- steps -----

  /** What pc_task does next, if it does not wait. */
  function TaskMove(x: Sys): Option<Sys> {
    match x.t
    case TTop => Some(x.(t := if x.f.running then TPauseTest else TSetExit))
    case TPauseTest => Some(x.(t := if x.f.pause then TSetPaused else TMain))
    case TMain => Some(x.(t := TTop))
    case TSetPaused => Some(x.(b := x.b.(paused := true), t := TWaitResume))
    case TWaitResume => if x.b.resume then Some(x.(t := TClearResume)) else None
    case TClearResume => Some(x.(b := x.b.(resume := false), t := TTop))
    case TSetExit => Some(x.(b := x.b.(exit := true), t := TGone))
    case _ => None
  }

  /** What a BYE handler does next. */
  function SignalMove(x: Sys): Option<Sys> {
    match x.s
    case SIdle => None
    case SByeTest(reconnect) => Some(x.(s := if x.f.pause then SExclusive(reconnect) else SRequest(reconnect)))
    case SRequest(reconnect) => Some(x.(f := x.f.(pause := true), s := SWaitPaused(reconnect)))
    case SWaitPaused(reconnect) => if x.b.paused then Some(x.(s := SClearPaused(reconnect))) else None
    case SClearPaused(reconnect) => Some(x.(b := x.b.(paused := false), s := SExclusive(reconnect)))
    case SExclusive(reconnect) => Some(x.(s := if reconnect then SResumeTest else SIdle))
    case SResumeTest => Some(x.(s := if x.f.pause then SUnpause else SIdle))
    case SUnpause => Some(x.(f := x.f.(pause := false), s := SSetResume))
    case SSetResume => Some(x.(b := x.b.(resume := true), s := SIdle))
  }

  /** What a call of the application does next. */
  function AppMove(x: Sys): Option<Sys> {
    match x.a
    case AIdle => None
    case AResumeTest => Some(x.(a := if x.f.pause then AUnpause else AIdle))
    case AUnpause => Some(x.(f := x.f.(pause := false), a := ASetResume))
    case ASetResume => Some(x.(b := x.b.(resume := true), a := AIdle))
    case ACloseTest(still) => Some(x.(a := if x.f.pause then ACloseUnpause(still) else AStopRunning(still)))
    case ACloseUnpause(still) => Some(x.(f := x.f.(pause := false), a := ACloseResume(still)))
    case ACloseResume(still) => Some(x.(b := x.b.(resume := true), a := AStopRunning(still)))
    case AStopRunning(still) => Some(x.(f := x.f.(running := false), a := if still then AWaitExit else AClosePeer))
    case AWaitExit => if x.b.exit then Some(x.(a := AClearExit)) else None
    case AClearExit => Some(x.(b := x.b.(exit := false), a := AClosePeer))
    case AClosePeer => Some(x.(peer := false, a := ADestroy))
    case ADestroy => Some(x.(group := false, a := AIdle))
  }

  /** A step of pc_task or of a call that is under way. */
  predicate GoesOn(x: Sys, y: Sys) {
    TaskMove(x) == Some(y) || SignalMove(x) == Some(y) || AppMove(x) == Some(y)
  }

  /** pc_start without a peer: open one, create the event group and start the task.  A peer
      that exists only gets new server information, and a peer that does not open changes
      nothing; both are no steps here. */
  predicate Opens(x: Sys, y: Sys) {
    !x.peer
    && y == x.(f := x.f.(running := true), b := Bits(false, false, false), peer := true, group := true, t := TTop)
  }

  /** A BYE arrives; without a running task it ends at once. */
  predicate ByeBegins(x: Sys, y: Sys) {
    x.s == SIdle && x.f.running && y.s.SByeTest? && y == x.(s := y.s)
  }

  predicate EnableBegins(x: Sys, y: Sys) {
    x.a == AIdle && x.peer && y == x.(a := AResumeTest)
  }

  predicate CloseBegins(x: Sys, y: Sys) {
    x.a == AIdle && y == x.(a := if x.peer then ACloseTest(x.f.running) else ADestroy)
  }

  predicate Begins(x: Sys, y: Sys) {
    || ((x.s == SIdle || x.a == AIdle) && Opens(x, y))
    || ByeBegins(x, y) || EnableBegins(x, y) || CloseBegins(x, y)
  }

  predicate Next(x: Sys, y: Sys) {
    GoesOn(x, y) || Begins(x, y)
  }

  // ----- calls that overlap -----

  /** Within a BYE, until it has taken its request back or left it standing. */
  predicate InBye(s: Signal) {
    !s.SIdle? && !s.SSetResume?
  }

  /** Enabling until pause is dealt with, closing until running is cleared. */
  predicate InCall(a: App) {
    a.AResumeTest? || a.AUnpause? || a.ACloseTest? || a.ACloseUnpause? || a.ACloseResume? || a.AStopRunning?
  }

  /** A call begins within another one: the application enables or closes within a BYE, a BYE
      arrives within an enabling or a closing, or the signaling thread opens a peer when the
      application is about to destroy the event group of the last one. */
  predicate Overlaps(x: Sys, y: Sys) {
    || ((EnableBegins(x, y) || CloseBegins(x, y)) && InBye(x.s))
    || (ByeBegins(x, y) && InCall(x.a))
    || (Opens(x, y) && x.a == ADestroy)
  }

  // ----- the invariant -----

  predicate Alive(t: Task) {
    t != TNone && t != TGone
  }

  predicate Closing(a: App) {
    a.AWaitExit? || a.AClearExit? || a.AClosePeer? || a.ADestroy?
  }

  /** pc_task sits in its wait for RESUME and nothing lets it go. */
  predicate Parked(x: Sys) {
    x.t == TWaitResume && !x.b.resume
  }

  /** The task, the peer and the event group live and die together. */
  predicate LifeInv(x: Sys) {
    && (Alive(x.t) ==> x.peer && x.group)
    && (!Closing(x.a) ==> (x.f.running <==> x.peer) && (x.peer <==> x.group) && (x.peer <==> Alive(x.t)))
    && (Closing(x.a) ==> !x.f.running && !x.f.pause && (x.peer ==> x.group) && (x.a.ADestroy? <==> !x.peer))
    && (x.a.AClearExit? || x.a.AClosePeer? || x.a.ADestroy? ==> !Alive(x.t))
    && (x.a.AWaitExit? ==> Alive(x.t) || x.b.exit)
    && (x.b.exit ==> x.t == TGone && (x.a.AWaitExit? || x.a.AClearExit?))
    && (x.t == TSetExit ==> x.a.AWaitExit?)
    && (!x.a.AIdle? && !x.a.ADestroy? ==> x.peer)
    && (x.a.ACloseTest? || x.a.ACloseUnpause? || x.a.ACloseResume? || x.a.AStopRunning? ==> x.a.still)
  }

  /** The application has cleared pause and is about to set RESUME. */
  predicate AppResumes(a: App) {
    a.ASetResume? || a.ACloseResume?
  }

  /** Some thread has seen pause and is about to clear it. */
  predicate Unpauses(x: Sys) {
    x.s.SUnpause? || x.a.AUnpause? || x.a.ACloseUnpause?
  }

  /** Pausing: outside the request itself a paused task is parked. */
  predicate PauseInv(x: Sys) {
    && (x.f.pause && !x.s.SWaitPaused? ==> Parked(x))
    && (x.s.SSetResume? ==> Parked(x) && !x.f.pause && !AppResumes(x.a))
    && (AppResumes(x.a) ==> Parked(x) && (x.f.pause ==> x.s.SWaitPaused?))
    && (x.b.paused <==> x.s.SClearPaused? || (x.s.SWaitPaused? && Parked(x) && !AppResumes(x.a)))
    && (x.t == TSetPaused ==> x.s.SWaitPaused? && !x.b.resume)
    && (x.b.resume ==> x.t == TWaitResume || x.t == TClearResume)
    && (x.t == TClearResume ==> x.b.resume)
    && (Parked(x) ==> x.f.pause || x.s.SSetResume? || AppResumes(x.a))
    && (x.f.pause ==> x.f.running)
  }

  /** A BYE and the other calls keep apart, and what each has read of the flags still holds. */
  predicate ApartInv(x: Sys) {
    && (InBye(x.s) ==> x.f.running && !InCall(x.a))
    && (x.s.SRequest? ==> !x.f.pause)
    && (x.s.SWaitPaused? || x.s.SClearPaused? || x.s.SExclusive? || x.s.SResumeTest? ==> x.f.pause)
    && (Unpauses(x) ==> x.f.pause)
    && (x.a.ACloseResume? || x.a.AStopRunning? ==> !x.f.pause)
  }

  predicate Inv(x: Sys) {
    LifeInv(x) && PauseInv(x) && ApartInv(x)
  }

  lemma StartInv()
    ensures Inv(START)
  {
  }

  lemma TaskKeepsInv(x: Sys, y: Sys)
    requires Inv(x) && TaskMove(x) == Some(y)
    ensures Inv(y)
  {
    assert LifeInv(y);
    assert PauseInv(y);
  }

  lemma SignalKeepsInv(x: Sys, y: Sys)
    requires Inv(x) && SignalMove(x) == Some(y)
    ensures Inv(y)
  {
    assert LifeInv(y);
    assert PauseInv(y);
  }

  lemma AppKeepsLife(x: Sys, y: Sys)
    requires Inv(x) && AppMove(x) == Some(y)
    ensures LifeInv(y)
  {
  }

  lemma AppKeepsPause(x: Sys, y: Sys)
    requires Inv(x) && AppMove(x) == Some(y)
    ensures PauseInv(y) && ApartInv(y)
  {
  }

  lemma BeginningKeepsInv(x: Sys, y: Sys)
    requires Inv(x) && Begins(x, y) && !Overlaps(x, y)
    ensures Inv(y)
  {
  }

  lemma NextKeepsInv(x: Sys, y: Sys)
    requires Inv(x) && Next(x, y) && !Overlaps(x, y)
    ensures Inv(y)
  {
    if TaskMove(x) == Some(y) {
      TaskKeepsInv(x, y);
    } else if SignalMove(x) == Some(y) {
      SignalKeepsInv(x, y);
    } else if AppMove(x) == Some(y) {
      AppKeepsLife(x, y);
      AppKeepsPause(x, y);
    } else {
      BeginningKeepsInv(x, y);
    }
  }
}
