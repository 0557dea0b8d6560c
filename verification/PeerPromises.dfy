/** What the handshake promises, and that it keeps its promises as long as no call begins
    within another one. */
module PeerPromises {
  import opened PeerTask
  import opened Wrappers

  // ----- runs -----

  predicate StepAt(tr: seq<Sys>, i: nat)
    requires i + 1 < |tr|
  {
    Next(tr[i], tr[i + 1])
  }

  ghost predicate Run(tr: seq<Sys>) {
    && tr != [] && tr[0] == START
    && forall i :: 0 <= i < |tr| - 1 ==> StepAt(tr, i)
  }

  predicate ApartAt(tr: seq<Sys>, k: nat)
    requires k + 1 < |tr|
  {
    !Overlaps(tr[k], tr[k + 1])
  }

  /** No call has begun within another one before state i. */
  predicate Apart(tr: seq<Sys>, i: nat)
    requires i < |tr|
  {
    forall k :: 0 <= k < i ==> ApartAt(tr, k)
  }

  lemma {:induction false} ApartKeepsInv(tr: seq<Sys>, i: nat)
    requires Run(tr) && i < |tr| && Apart(tr, i)
    ensures Inv(tr[i])
  {
    if i == 0 {
      StartInv();
    } else {
      ApartKeepsInv(tr, i - 1);
      assert StepAt(tr, i - 1) && ApartAt(tr, i - 1);
      NextKeepsInv(tr[i - 1], tr[i]);
    }
  }

  // ----- the promises -----

  function Last(c: seq<Sys>): Sys
    requires c != []
  {
    c[|c| - 1]
  }

  predicate GoesOnAt(c: seq<Sys>, i: nat)
    requires i + 1 < |c|
  {
    GoesOn(c[i], c[i + 1])
  }

  /** A way to go on from x with pc_task and the calls under way alone. */
  ghost predicate Continues(x: Sys, c: seq<Sys>) {
    && c != [] && c[0] == x
    && forall i :: 0 <= i < |c| - 1 ==> GoesOnAt(c, i)
  }

  /** A thread waits for a bit, and pc_task and the calls under way cannot end the wait. */
  ghost predicate InVain(x: Sys) {
    || (x.s.SWaitPaused? && forall c :: Continues(x, c) ==> Last(c).s == x.s)
    || (x.a.AWaitExit? && forall c :: Continues(x, c) ==> Last(c).a == x.a)
  }

  /** A control thread is about to use the event group. */
  predicate UsesGroup(x: Sys) {
    || x.s.SWaitPaused? || x.s.SClearPaused? || x.s.SSetResume?
    || AppResumes(x.a) || x.a.AWaitExit? || x.a.AClearExit?
  }

  /** One of the promises is broken: pc_task is inside esp_peer_main_loop during the exclusive
      part of a BYE, or it runs without the peer or the event group, or a control thread is
      about to use one that does not exist, or RESUME is left over from a pause that has ended
      and would end the next one, or a thread waits in vain. */
  ghost predicate Broken(x: Sys) {
    || (x.t == TMain && x.s.SExclusive?)
    || (Alive(x.t) && !(x.peer && x.group))
    || (x.s.SExclusive? && !x.peer)
    || (UsesGroup(x) && !x.group)
    || (x.b.resume && x.t != TWaitResume && x.t != TClearResume)
    || InVain(x)
  }

  /** However pc_task and the calls under way go on, no promise is broken. */
  ghost predicate Kept(x: Sys) {
    forall c :: Continues(x, c) ==> !Broken(Last(c))
  }

  lemma Prepend(x: Sys, y: Sys, c: seq<Sys>) returns (d: seq<Sys>)
    requires GoesOn(x, y) && Continues(y, c)
    ensures Continues(x, d) && Last(d) == Last(c)
  {
    d := [x] + c;
    forall i | 0 <= i < |d| - 1 ensures GoesOnAt(d, i) {
      if i > 0 {
        assert GoesOnAt(c, i - 1);
      }
    }
  }

  // ----- the waits end -----

  /** Moves that are left before PAUSED is set; a RESUME that is due counts as one. */
  function ToPause(x: Sys): nat {
    if x.b.paused then 0
    else
      match x.t
      case TSetPaused => 1
      case TPauseTest => 2
      case TTop => 3
      case TMain => 4
      case TClearResume => 4
      case TWaitResume => if x.b.resume then 5 else 6
      case _ => 7
  }

  /** Moves that are left before EXIT is set. */
  function ToExit(x: Sys): nat {
    if x.b.exit then 0
    else
      match x.t
      case TSetExit => 1
      case TTop => 2
      case TMain => 3
      case TClearResume => 3
      case TPauseTest => 4
      case TWaitResume => if x.b.resume then 4 else 5
      case _ => 6
  }

  /** The move that a waiting control thread depends on: the task's, or that of the thread that
      is about to set RESUME for it. */
  function Serve(x: Sys): Option<Sys> {
    if !Parked(x) then TaskMove(x)
    else if x.s.SSetResume? then SignalMove(x)
    else if AppResumes(x.a) then AppMove(x)
    else None
  }

  /** The next k such moves. */
  function Moves(x: Sys, k: nat): Sys
    decreases k
  {
    if k == 0 then x
    else
      match Serve(x)
      case Some(y) => Moves(y, k - 1)
      case None => x
  }

  lemma PauseServed(x: Sys)
    requires Inv(x) && x.s.SWaitPaused? && !x.b.paused
    ensures Serve(x).Some? && GoesOn(x, Serve(x).value) && Serve(x).value.s == x.s
    ensures ToPause(Serve(x).value) < ToPause(x) <= 6
  {
  }

  lemma ExitServed(x: Sys)
    requires Inv(x) && x.a.AWaitExit? && !x.b.exit
    ensures Serve(x).Some? && GoesOn(x, Serve(x).value) && Serve(x).value.a == x.a
    ensures ToExit(Serve(x).value) < ToExit(x) <= 5
  {
  }

  /** The BYE handler waits as before, PAUSED no farther away, or it has seen the bit. */
  predicate PauseNoFarther(x: Sys, y: Sys) {
    (y.s == x.s && ToPause(y) <= ToPause(x)) || (x.b.paused && SignalMove(x) == Some(y))
  }

  predicate ExitNoFarther(x: Sys, y: Sys) {
    (y.a == x.a && ToExit(y) <= ToExit(x)) || (x.b.exit && AppMove(x) == Some(y))
  }

  /** No step of anybody takes PAUSED farther away. */
  lemma PauseNearer(x: Sys, y: Sys)
    requires Inv(x) && x.s.SWaitPaused? && Next(x, y) && !Overlaps(x, y)
    ensures PauseNoFarther(x, y)
  {
  }

  lemma ExitNearer(x: Sys, y: Sys)
    requires Inv(x) && x.a.AWaitExit? && Next(x, y) && !Overlaps(x, y)
    ensures ExitNoFarther(x, y)
  {
  }

  lemma {:induction false} PauseEnds(x: Sys) returns (c: seq<Sys>)
    requires Inv(x) && x.s.SWaitPaused?
    ensures Continues(x, c) && Last(c).s != x.s
    decreases ToPause(x)
  {
    if x.b.paused {
      c := [x, SignalMove(x).value];
    } else {
      PauseServed(x);
      var y := Serve(x).value;
      NextKeepsInv(x, y);
      c := PauseEnds(y);
      c := Prepend(x, y, c);
    }
  }

  lemma {:induction false} ExitEnds(x: Sys) returns (c: seq<Sys>)
    requires Inv(x) && x.a.AWaitExit?
    ensures Continues(x, c) && Last(c).a != x.a
    decreases ToExit(x)
  {
    if x.b.exit {
      c := [x, AppMove(x).value];
    } else {
      ExitServed(x);
      var y := Serve(x).value;
      NextKeepsInv(x, y);
      c := ExitEnds(y);
      c := Prepend(x, y, c);
    }
  }

  lemma InvIsUnbroken(x: Sys)
    requires Inv(x)
    ensures !Broken(x)
  {
    if x.s.SWaitPaused? {
      var c := PauseEnds(x);
    }
    if x.a.AWaitExit? {
      var c := ExitEnds(x);
    }
  }

  lemma {:induction false} InvGoesOn(x: Sys, c: seq<Sys>, i: nat)
    requires Inv(x) && Continues(x, c) && i < |c|
    ensures Inv(c[i])
  {
    if i > 0 {
      InvGoesOn(x, c, i - 1);
      assert GoesOnAt(c, i - 1);
      NextKeepsInv(c[i - 1], c[i]);
    }
  }

  lemma InvIsKept(x: Sys)
    requires Inv(x)
    ensures Kept(x)
  {
    forall c | Continues(x, c) ensures !Broken(Last(c)) {
      InvGoesOn(x, c, |c| - 1);
      InvIsUnbroken(Last(c));
    }
  }

  // ----- what every run without overlap keeps -----

  /** Mutual exclusion, in every state of every run without overlapping calls: from the moment
      the BYE handler has seen PAUSED until it takes the pause back, and for as long as the
      task stays paused afterwards, pc_task is outside esp_peer_main_loop and cannot move;
      whenever it runs, the peer is open and the event group exists; and both go only when it
      has left. */
  lemma Exclusion(tr: seq<Sys>, i: nat)
    requires Run(tr) && i < |tr| && Apart(tr, i)
    ensures var x := tr[i];
            && (x.s.SExclusive? || x.s.SClearPaused? || (x.f.pause && !x.s.SWaitPaused?) ==>
                  Parked(x) && x.t != TMain && TaskMove(x) == None)
            && (Alive(x.t) ==> x.peer && x.group)
            && (x.a.AClosePeer? || x.a.ADestroy? ==> !Alive(x.t))
  {
    ApartKeepsInv(tr, i);
  }

  lemma {:induction false} PauseInMoves(x: Sys)
    requires Inv(x) && x.s.SWaitPaused?
    ensures exists n :: 0 <= n <= ToPause(x) && Moves(x, n).b.paused
    decreases ToPause(x)
  {
    if x.b.paused {
      assert Moves(x, 0).b.paused;
    } else {
      PauseServed(x);
      var y := Serve(x).value;
      NextKeepsInv(x, y);
      PauseInMoves(y);
      var n :| 0 <= n <= ToPause(y) && Moves(y, n).b.paused;
      assert Moves(x, n + 1) == Moves(y, n);
    }
  }

  lemma {:induction false} ExitInMoves(x: Sys)
    requires Inv(x) && x.a.AWaitExit?
    ensures exists n :: 0 <= n <= ToExit(x) && Moves(x, n).b.exit
    decreases ToExit(x)
  {
    if x.b.exit {
      assert Moves(x, 0).b.exit;
    } else {
      ExitServed(x);
      var y := Serve(x).value;
      NextKeepsInv(x, y);
      ExitInMoves(y);
      var n :| 0 <= n <= ToExit(y) && Moves(y, n).b.exit;
      assert Moves(x, n + 1) == Moves(y, n);
    }
  }

  /** The wait for PAUSED ends.  In every run without overlapping calls, a BYE handler that
      waits is served by at most six moves of pc_task and of a thread about to set RESUME; the
      next of them can always be made and brings the bit nearer, and no other step of any
      thread, nor any call that begins without overlap, takes it farther away. */
  lemma PauseIsAnswered(tr: seq<Sys>, i: nat)
    requires Run(tr) && i < |tr| && Apart(tr, i) && tr[i].s.SWaitPaused?
    ensures ToPause(tr[i]) <= 6 && exists n :: 0 <= n <= 6 && Moves(tr[i], n).b.paused
    ensures !tr[i].b.paused ==>
              && Serve(tr[i]).Some? && GoesOn(tr[i], Serve(tr[i]).value)
              && ToPause(Serve(tr[i]).value) < ToPause(tr[i])
    ensures forall y :: Next(tr[i], y) && !Overlaps(tr[i], y) ==> PauseNoFarther(tr[i], y)
  {
    var x := tr[i];
    ApartKeepsInv(tr, i);
    PauseInMoves(x);
    if !x.b.paused {
      PauseServed(x);
    }
    forall y | Next(x, y) && !Overlaps(x, y) ensures PauseNoFarther(x, y) {
      PauseNearer(x, y);
    }
  }

  /** The wait for EXIT ends, by at most five moves, in the same way. */
  lemma ExitIsAnswered(tr: seq<Sys>, i: nat)
    requires Run(tr) && i < |tr| && Apart(tr, i) && tr[i].a.AWaitExit?
    ensures ToExit(tr[i]) <= 5 && exists n :: 0 <= n <= 5 && Moves(tr[i], n).b.exit
    ensures !tr[i].b.exit ==>
              && Serve(tr[i]).Some? && GoesOn(tr[i], Serve(tr[i]).value)
              && ToExit(Serve(tr[i]).value) < ToExit(tr[i])
    ensures forall y :: Next(tr[i], y) && !Overlaps(tr[i], y) ==> ExitNoFarther(tr[i], y)
  {
    var x := tr[i];
    ApartKeepsInv(tr, i);
    ExitInMoves(x);
    if !x.b.exit {
      ExitServed(x);
    }
    forall y | Next(x, y) && !Overlaps(x, y) ensures ExitNoFarther(x, y) {
      ExitNearer(x, y);
    }
  }
}
