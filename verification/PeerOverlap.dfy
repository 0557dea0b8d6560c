/** What becomes of the handshake when a call does begin within another one: from then on
    pc_task and the two calls can go on in a way that breaks a promise.  With what
    `PeerPromises` proves of runs without overlap this says exactly when the promises are
    kept. */
module PeerOverlap {
  import opened PeerPromises
  import opened PeerTask
  import opened Wrappers

  lemma BrokenNow(x: Sys)
    requires Broken(x)
    ensures !Kept(x)
  {
    assert Continues(x, [x]);
  }

  lemma Back(x: Sys, y: Sys)
    requires GoesOn(x, y) && !Kept(y)
    ensures !Kept(x)
  {
    var c :| Continues(y, c) && Broken(Last(c));
    var d := Prepend(x, y, c);
  }

  lemma TaskBack(x: Sys)
    requires TaskMove(x).Some? && !Kept(TaskMove(x).value)
    ensures !Kept(x)
  {
    Back(x, TaskMove(x).value);
  }

  lemma SignalBack(x: Sys)
    requires SignalMove(x).Some? && !Kept(SignalMove(x).value)
    ensures !Kept(x)
  {
    Back(x, SignalMove(x).value);
  }

  lemma AppBack(x: Sys)
    requires AppMove(x).Some? && !Kept(AppMove(x).value)
    ensures !Kept(x)
  {
    Back(x, AppMove(x).value);
  }

  // ----- the task enters its main loop within a BYE -----

  /** An enabling or a closing that has not yet cleared pause. */
  predicate BeforeUnpause(a: App) {
    a.AResumeTest? || a.AUnpause? || a.ACloseTest? || a.ACloseUnpause?
  }

  predicate Unpausing(a: App) {
    a.AUnpause? || a.ACloseUnpause?
  }

  /** Nothing keeps the task from the main loop. */
  lemma {:induction false} TaskEnters(x: Sys)
    requires x.s.SExclusive? && x.f.running && !x.f.pause
    requires x.t == TMain || x.t == TPauseTest || x.t == TTop || x.t == TClearResume
             || (x.t == TWaitResume && x.b.resume)
    ensures !Kept(x)
    decreases ToPause(x.(b := x.b.(paused := false))), x.t != TMain
  {
    match x.t
    case TMain => BrokenNow(x);
    case TPauseTest => BrokenNow(x.(t := TMain)); TaskBack(x);
    case TTop => TaskEnters(x.(t := TPauseTest)); TaskBack(x);
    case TClearResume => TaskEnters(TaskMove(x).value); TaskBack(x);
    case TWaitResume => TaskEnters(x.(t := TClearResume)); TaskBack(x);
  }

  /** The application takes back the pause under which the handler works. */
  lemma {:induction false} PauseIsTaken(x: Sys)
    requires x.s.SExclusive? && x.f.running && x.f.pause && Parked(x) && BeforeUnpause(x.a)
    ensures !Kept(x)
    decreases !Unpausing(x.a)
  {
    var y := AppMove(x).value;
    if Unpausing(x.a) {
      TaskEnters(AppMove(y).value);
      AppBack(y);
    } else {
      PauseIsTaken(y);
    }
    AppBack(x);
  }

  /** The handler will have the task parked. */
  lemma ParkedIsTaken(x: Sys)
    requires x.f.running && x.f.pause && Parked(x) && BeforeUnpause(x.a)
    requires x.s.SExclusive? || x.s.SClearPaused? || x.s.SByeTest? || (x.s.SWaitPaused? && x.b.paused)
    ensures !Kept(x)
  {
    if x.s.SExclusive? {
      PauseIsTaken(x);
    } else {
      var y := SignalMove(x).value;
      if x.s.SWaitPaused? {
        PauseIsTaken(SignalMove(y).value);
        SignalBack(y);
      } else {
        PauseIsTaken(y);
      }
      SignalBack(x);
    }
  }

  // ----- the BYE handler waits in vain -----

  /** The handler waits for PAUSED, but its request is gone, or the task will leave without
      having seen it. */
  predicate Forgotten(x: Sys) {
    && x.s.SWaitPaused? && !x.b.paused && x.t != TSetPaused
    && (!x.f.pause || (!x.f.running && x.t != TPauseTest))
  }

  lemma ForgottenStep(x: Sys, y: Sys)
    requires Forgotten(x) && GoesOn(x, y)
    ensures Forgotten(y) && y.s == x.s
  {
    if TaskMove(x) != Some(y) {
      assert AppMove(x) == Some(y);
    }
  }

  lemma {:induction false} ForgottenStays(x: Sys, c: seq<Sys>, i: nat)
    requires Forgotten(x) && Continues(x, c) && i < |c|
    ensures Forgotten(c[i]) && c[i].s == x.s
  {
    if i > 0 {
      ForgottenStays(x, c, i - 1);
      assert GoesOnAt(c, i - 1);
      ForgottenStep(c[i - 1], c[i]);
    }
  }

  lemma ForgottenBreaks(x: Sys)
    requires Forgotten(x)
    ensures !Kept(x)
  {
    forall c | Continues(x, c) ensures Last(c).s == x.s {
      ForgottenStays(x, c, |c| - 1);
    }
    BrokenNow(x);
  }

  /** The application takes the request back before the task has seen it. */
  lemma {:induction false} RequestIsTaken(x: Sys)
    requires x.s.SWaitPaused? && x.f.pause && !x.b.paused && x.t != TSetPaused && BeforeUnpause(x.a)
    ensures !Kept(x)
    decreases !Unpausing(x.a)
  {
    var y := AppMove(x).value;
    if Unpausing(x.a) {
      ForgottenBreaks(y);
    } else {
      RequestIsTaken(y);
    }
    AppBack(x);
  }

  /** The application stops the task before it has seen the request. */
  lemma StopIsSeenFirst(x: Sys)
    requires x.s.SWaitPaused? && !x.b.paused && x.t != TSetPaused && x.t != TPauseTest && x.a.AStopRunning?
    ensures !Kept(x)
  {
    ForgottenBreaks(AppMove(x).value);
    AppBack(x);
  }

  /** A request that is about to be made while the application enables or closes. */
  lemma {:induction false} RequestIsLost(x: Sys)
    requires x.s.SByeTest? || x.s.SRequest?
    requires !x.f.pause && !x.b.paused && x.t != TSetPaused
    requires x.a.AResumeTest? || x.a.ACloseTest? || (x.a.AStopRunning? && x.t != TPauseTest)
    ensures !Kept(x)
    decreases x.s.SByeTest?
  {
    var y := SignalMove(x).value;
    if x.s.SByeTest? {
      RequestIsLost(y);
    } else if x.a.AStopRunning? {
      StopIsSeenFirst(y);
    } else {
      RequestIsTaken(y);
    }
    SignalBack(x);
  }

  // ----- a RESUME is left over -----

  /** One RESUME has let the task go, and another will come. */
  lemma {:induction false} SecondResume(x: Sys)
    requires x.f.running && Unpausing(x.a) && x.s == SIdle
    requires (x.b.resume && (x.t == TWaitResume || x.t == TClearResume)) || (x.t == TTop && !x.b.resume)
    ensures !Kept(x)
    decreases ToPause(x.(b := x.b.(paused := false)))
  {
    if x.t == TTop {
      var y := AppMove(x).value;
      BrokenNow(AppMove(y).value);
      AppBack(y);
      AppBack(x);
    } else {
      SecondResume(TaskMove(x).value);
      TaskBack(x);
    }
  }

  /** Both control threads have seen pause. */
  lemma BothResume(x: Sys)
    requires x.f.running && x.s.SUnpause? && x.f.pause && Parked(x) && Unpausing(x.a)
    ensures !Kept(x)
  {
    var y := SignalMove(x).value;
    SecondResume(SignalMove(y).value);
    SignalBack(y);
    SignalBack(x);
  }

  lemma {:induction false} BothWillResume(x: Sys)
    requires x.f.running && (x.s.SResumeTest? || x.s.SUnpause?) && x.f.pause && Parked(x) && BeforeUnpause(x.a)
    ensures !Kept(x)
    decreases x.s.SResumeTest?, !Unpausing(x.a)
  {
    if x.s.SResumeTest? {
      BothWillResume(SignalMove(x).value);
      SignalBack(x);
    } else if Unpausing(x.a) {
      BothResume(x);
    } else {
      BothWillResume(AppMove(x).value);
      AppBack(x);
    }
  }

  // ----- the overlaps -----

  /** The application enables or closes within a BYE. */
  lemma CallWithinBye(x: Sys, y: Sys)
    requires Inv(x) && (EnableBegins(x, y) || CloseBegins(x, y)) && InBye(x.s)
    ensures !Kept(y)
  {
    match x.s
    case SByeTest(_) =>
      if x.f.pause {
        ParkedIsTaken(y);
      } else {
        RequestIsLost(y);
      }
    case SRequest(_) => RequestIsLost(y);
    case SWaitPaused(_) =>
      if x.t == TSetPaused {
        ParkedIsTaken(TaskMove(y).value);
        TaskBack(y);
      } else if x.b.paused {
        ParkedIsTaken(y);
      } else {
        RequestIsTaken(y);
      }
    case SClearPaused(_) => ParkedIsTaken(y);
    case SExclusive(_) => ParkedIsTaken(y);
    case SResumeTest => BothWillResume(y);
    case SUnpause => BothWillResume(y);
  }

  /** A BYE arrives within an enabling or a closing. */
  lemma ByeWithinCall(x: Sys, y: Sys)
    requires Inv(x) && ByeBegins(x, y) && InCall(x.a)
    ensures !Kept(y)
  {
    if x.f.pause {
      ParkedIsTaken(y);
    } else if x.a.AResumeTest? || x.a.ACloseTest? {
      RequestIsLost(y);
    } else if x.a.ACloseResume? {
      RequestIsLost(AppMove(y).value);
      AppBack(y);
    } else if x.t == TPauseTest {
      RequestIsLost(TaskMove(y).value);
      TaskBack(y);
    } else {
      RequestIsLost(y);
    }
  }

  /** A peer is opened when the event group of the last one is about to be destroyed. */
  lemma OpenWithinDestroy(x: Sys, y: Sys)
    requires Opens(x, y) && x.a == ADestroy
    ensures !Kept(y)
  {
    BrokenNow(AppMove(y).value);
    AppBack(y);
  }

  /** A call that begins within another one endangers the promises at once. */
  lemma OverlapBreaks(x: Sys, y: Sys)
    requires Inv(x) && Next(x, y) && Overlaps(x, y)
    ensures !Kept(y)
  {
    if Opens(x, y) {
      OpenWithinDestroy(x, y);
    } else if ByeBegins(x, y) {
      ByeWithinCall(x, y);
    } else {
      CallWithinBye(x, y);
    }
  }

  ghost predicate KeptUpTo(tr: seq<Sys>, i: nat)
    requires i < |tr|
  {
    forall j :: 0 <= j <= i ==> Kept(tr[j])
  }

  /** In every run: up to a state, nothing that pc_task and the calls under way can do breaks a
      promise, if and only if no call has begun within another one. */
  lemma {:induction false} KeptExactly(tr: seq<Sys>, i: nat)
    requires Run(tr) && i < |tr|
    ensures KeptUpTo(tr, i) <==> Apart(tr, i)
  {
    if i == 0 {
      StartInv();
      InvIsKept(START);
    } else {
      KeptExactly(tr, i - 1);
      if Apart(tr, i - 1) {
        ApartKeepsInv(tr, i - 1);
        assert StepAt(tr, i - 1) && (ApartAt(tr, i - 1) <==> !Overlaps(tr[i - 1], tr[i]));
        if Overlaps(tr[i - 1], tr[i]) {
          OverlapBreaks(tr[i - 1], tr[i]);
        } else {
          NextKeepsInv(tr[i - 1], tr[i]);
          InvIsKept(tr[i]);
        }
      }
    }
  }
}
