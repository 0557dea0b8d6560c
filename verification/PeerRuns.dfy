/** Runs of the handshake from the start in which overlapping calls do break a promise. */
module PeerRuns {
  import opened PeerPromises
  import opened PeerTask
  import opened Wrappers

  lemma Extend(tr: seq<Sys>, y: Sys) returns (tr': seq<Sys>)
    requires Run(tr) && Next(Last(tr), y)
    ensures Run(tr') && Last(tr') == y
  {
    tr' := tr + [y];
    forall i | 0 <= i < |tr'| - 1 ensures StepAt(tr', i) {
      if i < |tr| - 1 {
        assert StepAt(tr, i);
      }
    }
  }

  /** Between two calls, pc_task runs and is about to test running. */
  const OPENED := START.(f := Flags(true, false), peer := true, group := true, t := TTop)

  lemma Opened() returns (tr: seq<Sys>)
    ensures Run(tr) && Last(tr) == OPENED
  {
    assert Opens(START, OPENED);
    tr := Extend([START], OPENED);
  }

  /** A BYE from its arrival to its exclusive part, while the application thread keeps still. */
  lemma ByeRuns(tr0: seq<Sys>, reconnect: bool) returns (tr: seq<Sys>)
    requires Run(tr0) && var x := Last(tr0); x == OPENED.(b := x.b, a := x.a)
    ensures Run(tr)
    ensures var x := Last(tr0);
            Last(tr) == x.(f := Flags(true, true), b := x.b.(paused := false), t := TWaitResume,
                           s := SExclusive(reconnect))
  {
    var x := Last(tr0);
    x := x.(s := SByeTest(reconnect));
    tr := Extend(tr0, x);
    x := x.(s := SRequest(reconnect));
    tr := Extend(tr, x);
    x := x.(f := x.f.(pause := true), s := SWaitPaused(reconnect));
    tr := Extend(tr, x);
    x := x.(t := TPauseTest);
    tr := Extend(tr, x);
    x := x.(t := TSetPaused);
    tr := Extend(tr, x);
    x := x.(b := x.b.(paused := true), t := TWaitResume);
    tr := Extend(tr, x);
    x := x.(s := SClearPaused(reconnect));
    tr := Extend(tr, x);
    x := x.(b := x.b.(paused := false), s := SExclusive(reconnect));
    tr := Extend(tr, x);
  }

  // ----- a close within a BYE -----

  /** The close resumes pc_task, which enters its main loop while the handler disconnects. */
  lemma ExclusionBreaks() returns (tr: seq<Sys>)
    ensures Run(tr) && Last(tr).s.SExclusive? && Last(tr).t == TMain
  {
    tr := Opened();
    tr := ByeRuns(tr, true);
    var x := Last(tr);
    x := x.(a := ACloseTest(true));
    tr := Extend(tr, x);
    x := x.(a := ACloseUnpause(true));
    tr := Extend(tr, x);
    x := x.(f := x.f.(pause := false), a := ACloseResume(true));
    tr := Extend(tr, x);
    x := x.(b := x.b.(resume := true), a := AStopRunning(true));
    tr := Extend(tr, x);
    x := x.(t := TClearResume);
    tr := Extend(tr, x);
    x := x.(b := x.b.(resume := false), t := TTop);
    tr := Extend(tr, x);
    x := x.(t := TPauseTest);
    tr := Extend(tr, x);
    x := x.(t := TMain);
    tr := Extend(tr, x);
  }

  // ----- a BYE within a close -----

  /** Nobody can go on. */
  predicate Stuck(x: Sys) {
    TaskMove(x) == None && SignalMove(x) == None && AppMove(x) == None
  }

  lemma StuckStays(x: Sys, c: seq<Sys>)
    requires Stuck(x) && Continues(x, c)
    ensures Last(c) == x
  {
    assert |c| > 1 ==> GoesOnAt(c, 0);
  }

  /** A BYE that does not reconnect and comes between the closer's test of pause and its write
      to running leaves the closer waiting for EXIT in vain. */
  lemma CloseIsAbandoned() returns (tr: seq<Sys>)
    ensures Run(tr) && Last(tr).a.AWaitExit? && InVain(Last(tr))
  {
    tr := Opened();
    var x := Last(tr);
    x := x.(a := ACloseTest(true));
    tr := Extend(tr, x);
    x := x.(a := AStopRunning(true));
    tr := Extend(tr, x);
    tr := ByeRuns(tr, false);
    x := Last(tr);
    x := x.(s := SIdle);
    tr := Extend(tr, x);
    x := x.(f := x.f.(running := false), a := AWaitExit);
    tr := Extend(tr, x);
    forall c | Continues(x, c) ensures Last(c).a == x.a {
      StuckStays(x, c);
    }
  }

  // ----- an enabling within the end of a BYE -----

  /** Both threads see pause and set RESUME; the second one is left over. */
  lemma ResumedTwice() returns (tr: seq<Sys>)
    ensures Run(tr) && Last(tr) == OPENED.(b := OPENED.b.(resume := true))
  {
    tr := Opened();
    tr := ByeRuns(tr, true);
    var x := Last(tr);
    x := x.(s := SResumeTest);
    tr := Extend(tr, x);
    x := x.(s := SUnpause);
    tr := Extend(tr, x);
    x := x.(a := AResumeTest);
    tr := Extend(tr, x);
    x := x.(a := AUnpause);
    tr := Extend(tr, x);
    x := x.(f := x.f.(pause := false), s := SSetResume);
    tr := Extend(tr, x);
    x := x.(b := x.b.(resume := true), s := SIdle);
    tr := Extend(tr, x);
    x := x.(t := TClearResume);
    tr := Extend(tr, x);
    x := x.(b := x.b.(resume := false), t := TTop);
    tr := Extend(tr, x);
    x := x.(a := ASetResume);
    tr := Extend(tr, x);
    x := x.(b := x.b.(resume := true), a := AIdle);
    tr := Extend(tr, x);
  }

  /** The next BYE: the left-over RESUME ends the wait of the paused task, which announces its
      pause a second time, when the handler has already cleared PAUSED. */
  lemma PausedTwice() returns (tr: seq<Sys>)
    ensures Run(tr) && Last(tr) == OPENED.(b := OPENED.b.(paused := true))
  {
    tr := ResumedTwice();
    tr := ByeRuns(tr, true);
    var x := Last(tr);
    x := x.(t := TClearResume);
    tr := Extend(tr, x);
    x := x.(b := x.b.(resume := false), t := TTop);
    tr := Extend(tr, x);
    x := x.(t := TPauseTest);
    tr := Extend(tr, x);
    x := x.(t := TSetPaused);
    tr := Extend(tr, x);
    x := x.(b := x.b.(paused := true), t := TWaitResume);
    tr := Extend(tr, x);
    tr := ByeResumes(tr);
  }

  /** The end of a BYE that takes its pause back. */
  lemma ByeResumes(tr0: seq<Sys>) returns (tr: seq<Sys>)
    requires Run(tr0) && var x := Last(tr0);
             x == OPENED.(f := Flags(true, true), b := Bits(false, true, false), t := TWaitResume,
                          s := SExclusive(true))
    ensures Run(tr) && Last(tr) == OPENED.(b := OPENED.b.(paused := true))
  {
    var x := Last(tr0);
    x := x.(s := SResumeTest);
    tr := Extend(tr0, x);
    x := x.(s := SUnpause);
    tr := Extend(tr, x);
    x := x.(f := x.f.(pause := false), s := SSetResume);
    tr := Extend(tr, x);
    x := x.(b := x.b.(resume := true), s := SIdle);
    tr := Extend(tr, x);
    x := x.(t := TClearResume);
    tr := Extend(tr, x);
    x := x.(b := x.b.(resume := false), t := TTop);
    tr := Extend(tr, x);
  }

  /** The BYE after that finds PAUSED set and works while pc_task is in its main loop: what a
      left-over RESUME leads to although no further calls overlap. */
  lemma LeftOverBreaksExclusion() returns (tr: seq<Sys>)
    ensures Run(tr) && Last(tr).s.SExclusive? && Last(tr).t == TMain
  {
    tr := PausedTwice();
    var x := Last(tr);
    x := x.(s := SByeTest(true));
    tr := Extend(tr, x);
    x := x.(s := SRequest(true));
    tr := Extend(tr, x);
    x := x.(t := TPauseTest);
    tr := Extend(tr, x);
    x := x.(t := TMain);
    tr := Extend(tr, x);
    x := x.(f := x.f.(pause := true), s := SWaitPaused(true));
    tr := Extend(tr, x);
    x := x.(s := SClearPaused(true));
    tr := Extend(tr, x);
    x := x.(b := x.b.(paused := false), s := SExclusive(true));
    tr := Extend(tr, x);
  }
}
