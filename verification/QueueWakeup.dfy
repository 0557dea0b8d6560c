/** What data_queue_wakeup promises: it waits until every user has left, and once it has
    returned nobody comes back.  But peek_unlock drops a user without setting the user-free
    bit, and a run in which that happens leaves the waker asleep for ever. */
module QueueWakeup {
  import opened Bytes
  import opened QueueLayout
  import opened QueuePromises
  import opened QueueRuns
  import opened QueueThreads

  /** The waker sleeps with its bit clear, the queue has no user left, and the writer and
      the reader are outside the library or about to be turned away. */
  predicate Stranded(s: Sys) {
    && s.k.KWait? && !s.c.free && s.q.quit && s.q.user == 0
    && (s.w.WIdle? || s.w.WEnter? || s.w.WTry?)
    && (s.r.RIdle? || s.r.REnter? || s.r.RTry?)
  }

  lemma StrandedStep(tr: seq<Sys>, i: nat)
    requires Run(tr) && i + 1 < |tr| && Stranded(tr[i])
    ensures Stranded(tr[i + 1])
  {
    assert StepAt(tr, i);
  }

  /** Once stranded, the waker sleeps in every later state of every run. */
  lemma {:induction false} StrandedForEver(tr: seq<Sys>, i: nat, j: nat)
    requires Run(tr) && i <= j < |tr| && Stranded(tr[i])
    ensures Stranded(tr[j])
    decreases j - i
  {
    if i < j {
      StrandedForEver(tr, i, j - 1);
      StrandedStep(tr, j - 1);
    }
  }

  /** The step that strands it: the last user leaves by peek_unlock while the waker sleeps
      with its bit clear. */
  ghost predicate LastUserPeeks(s: Sys, t: Sys)
    requires Pointers(s.q)
  {
    s.k.KWait? && !s.c.free && s.r.RUnlock? && s.r.keep && s.q.user == 1 && ReaderStep(s, t)
  }

  lemma OthersDoNotStrand(s: Sys, t: Sys)
    requires Inv(s) && !Stranded(s) && (WriterStep(s, t) || FlusherStep(s, t) || WakerStep(s, t))
    ensures !Stranded(t)
  {
  }

  lemma ReaderStrands(s: Sys, t: Sys)
    requires Inv(s) && !Stranded(s) && ReaderStep(s, t)
    ensures Stranded(t) <==> LastUserPeeks(s, t)
  {
  }

  lemma StrandsExactly(s: Sys, t: Sys)
    requires Inv(s) && Next(s, t) && !Stranded(s)
    ensures Stranded(t) <==> LastUserPeeks(s, t)
  {
    if ReaderStep(s, t) {
      ReaderStrands(s, t);
    } else {
      OthersDoNotStrand(s, t);
    }
  }

  ghost predicate PeekedBefore(tr: seq<Sys>, i: nat)
    requires Run(tr) && i < |tr|
  {
    exists j :: 0 <= j < i && StepAt(tr, j) && LastUserPeeks(tr[j], tr[j + 1])
  }

  /** The waker is stranded in a state of a run if and only if such a step has been made. */
  lemma {:induction false} StrandedExactly(tr: seq<Sys>, i: nat)
    requires Run(tr) && i < |tr|
    ensures Stranded(tr[i]) <==> PeekedBefore(tr, i)
  {
    if i > 0 {
      StrandedExactly(tr, i - 1);
      RunKeepsInv(tr, i - 1);
      assert StepAt(tr, i - 1);
      if Stranded(tr[i - 1]) {
        StrandedStep(tr, i - 1);
      } else {
        StrandsExactly(tr[i - 1], tr[i]);
      }
    }
  }

  // ----- a wakeup that returns -----

  lemma WriterStaysOut(s: Sys, t: Sys)
    requires Inv(s) && s.q.quit && s.q.user == 0 && WriterStep(s, t)
    ensures t.q.user == 0
  {
  }

  lemma ReaderStaysOut(s: Sys, t: Sys)
    requires Inv(s) && s.q.quit && s.q.user == 0 && ReaderStep(s, t)
    ensures t.q.user == 0
  {
  }

  lemma DoneStep(s: Sys, t: Sys)
    requires Inv(s) && Next(s, t) && t.k.KDone? && (s.k.KDone? ==> s.q.user == 0)
    ensures t.q.user == 0
  {
    if WriterStep(s, t) {
      WriterStaysOut(s, t);
    } else if ReaderStep(s, t) {
      ReaderStaysOut(s, t);
    }
  }

  lemma {:induction false} DoneWithoutUsers(tr: seq<Sys>, i: nat)
    requires Run(tr) && i < |tr| && tr[i].k.KDone?
    ensures tr[i].q.user == 0
  {
    if i > 0 {
      if tr[i - 1].k.KDone? {
        DoneWithoutUsers(tr, i - 1);
      }
      RunKeepsInv(tr, i - 1);
      assert StepAt(tr, i - 1);
      DoneStep(tr[i - 1], tr[i]);
    }
  }

  /** When wakeup has returned, and in every state after that, nobody sleeps in the queue,
      owns a reservation or looks at a block. */
  lemma DoneMeansLeft(tr: seq<Sys>, i: nat)
    requires Run(tr) && i < |tr| && tr[i].k.KDone?
    ensures tr[i].q.quit && tr[i].q.user == 0
    ensures var w := tr[i].w;
            !(w.WWait? || w.WClear? || w.WRelock? || w.WWoken? || w.WHold? || w.WSubmit? || w.WSend?)
    ensures var r := tr[i].r;
            !(r.RWait? || r.RClear? || r.RRelock? || r.RWoken? || r.RHold? || r.RFinish? || r.RUnlock?)
  {
    DoneWithoutUsers(tr, i);
    RunKeepsInv(tr, i);
  }

  // ----- a run that strands the waker -----

  /** Between two calls: the queue holds one block of one byte. */
  predicate OneBlock(s: Sys, user: int, quit: bool) {
    && s.w == WIdle && s.f == FIdle && s.c.lock == Free
    && |s.q.buf| == 8 && s.q == Queue(s.q.buf, 0, 5, 0, 5, user, quit)
  }

  lemma WriterReservesOne(buf: seq<Byte>) returns (tr: seq<Sys>)
    requires |buf| == 8
    ensures Run(tr)
    ensures Last(tr) == Sys(Init(buf).(user := 1), Sync(Free, false, false, false), WHold(1), RIdle, FIdle, KIdle,
                            Log([], [], false))
  {
    var x := Sys(Init(buf), Sync(Free, false, false, false), WIdle, RIdle, FIdle, KIdle, Log([], [], false));
    tr := [x];
    x := x.(w := WEnter(1));
    tr := Extend(tr, x);
    x := x.(w := WTry(1), c := x.c.(lock := OfWriter));
    tr := Extend(tr, x);
    x := x.(q := Reserve(x.q, 1), w := WHold(1), c := x.c.(lock := Free));
    tr := Extend(tr, x);
  }

  /** The writer queues one byte. */
  lemma WriterQueuesOne(buf: seq<Byte>) returns (tr: seq<Sys>)
    requires |buf| == 8
    ensures Run(tr) && var s := Last(tr); OneBlock(s, 0, false) && s.r == RIdle && s.k == KIdle && s.c.free
  {
    tr := WriterReservesOne(buf);
    var x := Last(tr);
    x := x.(w := WSubmit(1, 1));
    tr := Extend(tr, x);
    x := x.(w := WSend(1, 1), c := x.c.(lock := OfWriter));
    tr := Extend(tr, x);
    x := x.(q := Send(x.q, 1), w := WNotify, log := x.log.(sent := x.log.sent + Sent(x.q, 1)));
    tr := Extend(tr, x);
    x := x.(w := WRelease, c := x.c.(arrive := true));
    tr := Extend(tr, x);
    x := x.(w := WIdle, c := x.c.(free := true, lock := Free));
    tr := Extend(tr, x);
  }

  /** The reader looks at the block. */
  lemma ReaderPeeks(tr0: seq<Sys>) returns (tr: seq<Sys>)
    requires Run(tr0) && var s := Last(tr0); OneBlock(s, 0, false) && s.r == RIdle && s.k == KIdle && s.c.free
    ensures Run(tr) && var s := Last(tr); OneBlock(s, 1, false) && s.r.RHold? && s.k == KIdle && s.c.free
  {
    tr := tr0;
    var x := Last(tr);
    x := x.(r := REnter);
    tr := Extend(tr, x);
    x := x.(r := RTry, c := x.c.(lock := OfReader));
    tr := Extend(tr, x);
    x := x.(q := ReadLock(x.q), r := RHold(HEAD, Header(x.q.buf, 0) - HEAD), c := x.c.(lock := Free));
    tr := Extend(tr, x);
  }

  /** The waker announces the end, finds the reader and goes to sleep. */
  lemma WakerSleeps(tr0: seq<Sys>) returns (tr: seq<Sys>)
    requires Run(tr0) && var s := Last(tr0); OneBlock(s, 1, false) && s.r.RHold? && s.k == KIdle && s.c.free
    ensures Run(tr) && var s := Last(tr); OneBlock(s, 1, true) && s.r.RHold? && s.k == KWait && s.c.free
  {
    tr := tr0;
    var x := Last(tr);
    x := x.(k := KSet, c := x.c.(lock := OfWaker));
    tr := Extend(tr, x);
    x := x.(q := x.q.(quit := true), k := KArrive);
    tr := Extend(tr, x);
    x := x.(k := KConsume, c := x.c.(arrive := true));
    tr := Extend(tr, x);
    x := x.(k := KCheck, c := x.c.(consume := true));
    tr := Extend(tr, x);
    x := x.(k := KWait, c := x.c.(lock := Free), log := x.log.(silent := false));
    tr := Extend(tr, x);
  }

  /** An old user-free bit wakes it, and it goes to sleep again. */
  lemma WakerSleepsAgain(tr0: seq<Sys>) returns (tr: seq<Sys>)
    requires Run(tr0) && var s := Last(tr0); OneBlock(s, 1, true) && s.r.RHold? && s.k == KWait && s.c.free
    ensures Run(tr) && var s := Last(tr); OneBlock(s, 1, true) && s.r.RHold? && s.k == KWait && !s.c.free
  {
    tr := tr0;
    var x := Last(tr);
    x := x.(k := KClear);
    tr := Extend(tr, x);
    x := x.(k := KRelock, c := x.c.(free := false));
    tr := Extend(tr, x);
    x := x.(k := KCheck, c := x.c.(lock := OfWaker));
    tr := Extend(tr, x);
    x := x.(k := KWait, c := x.c.(lock := Free), log := x.log.(silent := false));
    tr := Extend(tr, x);
  }

  /** The reader leaves by peek_unlock. */
  lemma ReaderLeaves(tr0: seq<Sys>) returns (tr: seq<Sys>)
    requires Run(tr0) && var s := Last(tr0); OneBlock(s, 1, true) && s.r.RHold? && s.k == KWait && !s.c.free
    ensures Run(tr) && Stranded(Last(tr))
  {
    var x := Last(tr0);
    x := x.(r := RFinish(x.r.at, x.r.size, true));
    tr := Extend(tr0, x);
    x := x.(r := RUnlock(x.r.at, x.r.size, true), c := x.c.(lock := OfReader));
    tr := Extend(tr, x);
    x := x.(q := PeekUnlock(x.q), r := RIdle, c := x.c.(lock := Free), log := x.log.(silent := true));
    tr := Extend(tr, x);
  }

  /** The call to wakeup does not always return: while a reader holds the only block, wakeup
      is called; the reader then leaves with peek_unlock, and the waker is stranded. */
  lemma StrandedRun() returns (tr: seq<Sys>)
    ensures Run(tr) && Stranded(tr[|tr| - 1])
  {
    tr := WriterQueuesOne([0, 0, 0, 0, 0, 0, 0, 0]);
    tr := ReaderPeeks(tr);
    tr := WakerSleeps(tr);
    tr := WakerSleepsAgain(tr);
    tr := ReaderLeaves(tr);
  }
}
