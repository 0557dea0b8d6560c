/** What every run of the data queue's threads keeps: blocks come out in order, reservations
    hold, nobody sleeps without a reason, and nobody is stuck. */
module QueuePromises {
  import opened Bytes
  import opened QueueLayout
  import opened QueueThreads

  // ----- runs -----

  /** A run: it starts empty and idle, and each state follows by one step of one thread. */
  ghost predicate Run(tr: seq<Sys>) {
    && tr != [] && Start(tr[0])
    && forall i :: 0 <= i < |tr| - 1 ==> StepAt(tr, i)
  }

  ghost predicate StepAt(tr: seq<Sys>, i: nat)
    requires i + 1 < |tr|
  {
    Pointers(tr[i].q) && Next(tr[i], tr[i + 1])
  }

  lemma {:induction false} RunKeepsInv(tr: seq<Sys>, i: nat)
    requires Run(tr) && i < |tr|
    ensures Inv(tr[i])
  {
    if i == 0 {
      StartInv(tr[0]);
    } else {
      RunKeepsInv(tr, i - 1);
      assert StepAt(tr, i - 1);
      NextKeepsInv(tr[i - 1], tr[i]);
    }
  }

  /** In every state of every run: what left the queue is a prefix of what was sent, in
      order and byte for byte, the rest is what is queued, and a reader looking at a
      block sees exactly the oldest one that has not left yet. */
  lemma Fifo(tr: seq<Sys>, i: nat)
    requires Run(tr) && i < |tr|
    ensures QueueLayout.Valid(tr[i].q) && tr[i].log.sent == tr[i].log.out + Contents(tr[i].q)
    ensures var s := tr[i];
            ReaderHolds(s.r) ==>
              && |s.log.out| < |s.log.sent| && 0 <= s.r.at <= s.r.at + s.r.size <= |s.q.buf|
              && s.q.buf[s.r.at..s.r.at + s.r.size] == s.log.sent[|s.log.out|]
  {
    RunKeepsInv(tr, i);
    var s := tr[i];
    if ReaderHolds(s.r) {
      FrontHeader(s.q);
    }
  }

  /** A granted reservation survives everything the other threads do, so that sending no
      more than was reserved never fails. */
  lemma SendNeverFails(tr: seq<Sys>, i: nat)
    requires Run(tr) && i < |tr| && tr[i].w.WSend? && tr[i].w.m <= tr[i].w.n
    ensures CanSend(tr[i].q, tr[i].w.m)
  {
    RunKeepsInv(tr, i);
  }

  // ----- waiting -----

  lemma ParkedInv(s: Sys)
    requires Inv(s) && s.c.lock == Free
    ensures s.w.WWait? && !s.c.consume ==> !s.q.quit && Contents(s.q) != [] && !Granted(s.q, s.w.n)
    ensures s.r.RWait? && !s.c.arrive ==> !s.q.quit && Contents(s.q) == []
    ensures s.k.KWait? && !s.c.free ==> s.q.user > 0 || s.log.silent
  {
    EmptyTests(s.q);
  }

  /** No lost wake-up, in every state of every run: a thread parked with its bit clear, while
      nobody holds the lock, waits for something that has not happened.  A parked writer
      finds the queue not empty and too full; a parked reader finds it empty. */
  lemma ParkedForAReason(tr: seq<Sys>, i: nat)
    requires Run(tr) && i < |tr| && tr[i].c.lock == Free
    ensures QueueLayout.Valid(tr[i].q)
    ensures var s := tr[i];
            && (s.w.WWait? && !s.c.consume ==> !s.q.quit && Contents(s.q) != [] && !Granted(s.q, s.w.n))
            && (s.r.RWait? && !s.c.arrive ==> !s.q.quit && Contents(s.q) == [])
            && (s.k.KWait? && !s.c.free ==> s.q.user > 0 || s.log.silent)
  {
    RunKeepsInv(tr, i);
    ParkedInv(tr[i]);
  }

  /** The writer and the reader are never both asleep for good. */
  lemma NeverBothParked(tr: seq<Sys>, i: nat)
    requires Run(tr) && i < |tr| && tr[i].c.lock == Free
    ensures var s := tr[i]; !(s.w.WWait? && !s.c.consume && s.r.RWait? && !s.c.arrive)
  {
    ParkedForAReason(tr, i);
  }

  /** Once a parked writer's queue has run empty its bit is set, and the pass it then
      makes is granted. */
  lemma EmptyQueueServesWriter(tr: seq<Sys>, i: nat)
    requires Run(tr) && i < |tr| && tr[i].c.lock == Free && WantsSpace(tr[i].w)
    requires QueueLayout.Valid(tr[i].q) && Contents(tr[i].q) == []
    ensures tr[i].w.WWait? ==> tr[i].c.consume
    ensures Granted(tr[i].q, tr[i].w.n)
  {
    RunKeepsInv(tr, i);
    GrantedExactly(tr[i].q, tr[i].w.n);
    ParkedInv(tr[i]);
  }

  /** Outside the library, or asleep with a clear bit. */
  predicate WriterRests(s: Sys) {
    s.w.WIdle? || s.w.WHold? || (s.w.WWait? && !s.c.consume)
  }

  predicate ReaderRests(s: Sys) {
    s.r.RIdle? || s.r.RHold? || (s.r.RWait? && !s.c.arrive)
  }

  predicate WakerRests(s: Sys) {
    s.k.KIdle? || s.k.KDone? || (s.k.KWait? && !s.c.free)
  }

  /** A step of the thread that owns the lock. */
  ghost predicate OwnerStep(s: Sys, t: Sys)
    requires Pointers(s.q)
  {
    match s.c.lock
    case Free => false
    case OfWriter => WriterStep(s, t)
    case OfReader => ReaderStep(s, t)
    case OfFlusher => FlusherStep(s, t)
    case OfWaker => WakerStep(s, t)
  }

  /** Whoever holds the lock can take a step, unless the flusher has hit its trap. */
  lemma LockHolderSteps(s: Sys) returns (t: Sys)
    requires Inv(s) && s.c.lock != Free && s.f != FTrapped
    ensures OwnerStep(s, t)
  {
    match s.c.lock
    case OfWriter => t := WriterMoves(s);
    case OfReader => t := ReaderMoves(s);
    case OfFlusher => t := FlusherMoves(s);
    case OfWaker => t := WakerMoves(s);
  }

  lemma WriterMoves(s: Sys) returns (t: Sys)
    requires Inv(s) && (s.c.lock == OfWriter || (s.c.lock == Free && !s.w.WIdle? && !s.w.WHold?))
    requires s.w.WWait? ==> s.c.consume
    ensures WriterStep(s, t)
  {
    match s.w
    case WEnter(n) =>
      t := if n + HEAD > |s.q.buf| then s.(w := WIdle) else s.(c := s.c.(lock := OfWriter), w := WTry(n));
    case WTry(n) =>
      t := if s.q.quit then s.(c := s.c.(lock := Free), w := WIdle)
           else s.(q := Reserve(s.q, n), c := s.c.(lock := Free), w := if Granted(s.q, n) then WHold(n) else WWait(n));
    case WWait(n) => t := s.(w := WClear(n));
    case WClear(n) => t := s.(c := s.c.(consume := false), w := WRelock(n));
    case WRelock(n) => t := s.(c := s.c.(lock := OfWriter), w := WWoken(n));
    case WWoken(n) =>
      t := if s.q.quit then s.(q := AddUser(s.q, -1), c := s.c.(free := true, lock := Free), w := WIdle)
           else s.(q := AddUser(s.q, -1), c := s.c.(free := true), w := WTry(n));
    case WSubmit(n, m) => t := s.(c := s.c.(lock := OfWriter), w := WSend(n, m));
    case WSend(n, m) =>
      t := if m == 0 || !CanSend(s.q, m) then s.(q := Send(s.q, m), c := s.c.(free := true, lock := Free), w := WIdle)
           else s.(q := Send(s.q, m), w := WNotify, log := s.log.(sent := s.log.sent + Sent(s.q, m)));
    case WNotify => t := s.(c := s.c.(arrive := true), w := WRelease);
    case WRelease => t := s.(c := s.c.(free := true, lock := Free), w := WIdle);
  }

  lemma ReaderMoves(s: Sys) returns (t: Sys)
    requires Inv(s) && (s.c.lock == OfReader || (s.c.lock == Free && !s.r.RIdle? && !s.r.RHold?))
    requires s.r.RWait? ==> s.c.arrive
    ensures ReaderStep(s, t)
  {
    if HaveData(s.q) {
      FrontHeader(s.q);
    }
    EmptyTests(s.q);
    match s.r
    case REnter => t := s.(c := s.c.(lock := OfReader), r := RTry);
    case RTry =>
      t := if s.q.quit then s.(c := s.c.(lock := Free), r := RIdle)
           else if s.q.filled == 0 then s.(q := AddUser(s.q, 1), c := s.c.(lock := Free), r := RWait)
           else s.(q := ReadLock(s.q), c := s.c.(lock := Free),
                   r := RHold(s.q.rp + HEAD, Header(s.q.buf, s.q.rp) - HEAD));
    case RWait => t := s.(r := RClear);
    case RClear => t := s.(c := s.c.(arrive := false), r := RRelock);
    case RRelock => t := s.(c := s.c.(lock := OfReader), r := RWoken);
    case RWoken =>
      t := if s.q.quit then s.(q := AddUser(s.q, -1), c := s.c.(free := true, lock := Free), r := RIdle)
           else s.(q := AddUser(s.q, -1), c := s.c.(free := true), r := RTry);
    case RFinish(at, size, keep) => t := s.(c := s.c.(lock := OfReader), r := RUnlock(at, size, keep));
    case RUnlock(at, size, keep) =>
      t := if keep then s.(q := PeekUnlock(s.q), c := s.c.(lock := Free), r := RIdle, log := s.log.(silent := true))
           else s.(q := ReadUnlock(s.q), r := RNotify, log := s.log.(out := s.log.out + [s.q.buf[at..at + size]]));
    case RNotify => t := s.(c := s.c.(consume := true), r := RRelease);
    case RRelease => t := s.(c := s.c.(free := true, lock := Free), r := RIdle);
  }

  lemma FlusherMoves(s: Sys) returns (t: Sys)
    requires Inv(s) && s.c.lock == OfFlusher && s.f != FTrapped
    ensures FlusherStep(s, t)
  {
    if HaveData(s.q) {
      FrontHeader(s.q);
    }
    match s.f
    case FLoop =>
      if !HaveData(s.q) || s.q.quit {
        t := s.(c := s.c.(lock := Free), f := FIdle);
      } else {
        var len := Header(s.q.buf, s.q.rp);
        t := if len >= |s.q.buf| then s.(f := FTrapped)
             else s.(q := Pop(s.q), f := FNotify,
                     log := s.log.(out := s.log.out + [s.q.buf[s.q.rp + HEAD..s.q.rp + len]]));
      }
    case FNotify => t := s.(c := s.c.(consume := true), f := FLoop);
  }

  lemma WakerMoves(s: Sys) returns (t: Sys)
    requires Inv(s) && (s.c.lock == OfWaker || (s.c.lock == Free && !s.k.KDone?))
    requires s.k.KWait? ==> s.c.free
    ensures WakerStep(s, t)
  {
    match s.k
    case KIdle => t := s.(c := s.c.(lock := OfWaker), k := KSet);
    case KSet => t := s.(q := s.q.(quit := true), k := KArrive);
    case KArrive => t := s.(c := s.c.(arrive := true), k := KConsume);
    case KConsume => t := s.(c := s.c.(consume := true), k := KCheck);
    case KCheck =>
      t := if s.q.user != 0 then s.(c := s.c.(lock := Free), k := KWait, log := s.log.(silent := false))
           else s.(c := s.c.(lock := Free), k := KDone);
    case KWait => t := s.(k := KClear);
    case KClear => t := s.(c := s.c.(free := false), k := KRelock);
    case KRelock => t := s.(c := s.c.(lock := OfWaker), k := KCheck);
  }

  /** The step of a thread that is not at rest, or `s` again. */
  lemma EachMoves(s: Sys) returns (w: Sys, r: Sys, k: Sys)
    requires Inv(s) && s.c.lock == Free
    ensures WriterRests(s) || WriterStep(s, w)
    ensures ReaderRests(s) || ReaderStep(s, r)
    ensures WakerRests(s) || WakerStep(s, k)
  {
    w, r, k := s, s, s;
    if !WriterRests(s) {
      w := WriterMoves(s);
    }
    if !ReaderRests(s) {
      r := ReaderMoves(s);
    }
    if !WakerRests(s) {
      k := WakerMoves(s);
    }
  }

  /** Deadlock freedom, thread by thread.  In every state of every run: if the lock is taken,
      its owner can take a step; if it is free, each of writer, reader and waker can take a
      step of its own unless it rests, and who sleeps does so for a reason: the reader on an
      empty queue, the writer on a full one (and then the reader is not asleep, so that the
      application can still read), the waker on a user that has not left. */
  lemma NoDeadlock(tr: seq<Sys>, i: nat) returns (t: Sys, w: Sys, r: Sys, k: Sys)
    requires Run(tr) && i < |tr| && tr[i].f != FTrapped
    ensures QueueLayout.Valid(tr[i].q)
    ensures tr[i].c.lock != Free ==> OwnerStep(tr[i], t)
    ensures tr[i].c.lock == Free ==>
              && (WriterRests(tr[i]) || WriterStep(tr[i], w))
              && (ReaderRests(tr[i]) || ReaderStep(tr[i], r))
              && (WakerRests(tr[i]) || WakerStep(tr[i], k))
    ensures var s := tr[i];
            s.c.lock == Free ==>
              && (s.w.WWait? && WriterRests(s) ==> !(s.r.RWait? && ReaderRests(s)) && Contents(s.q) != [])
              && (s.r.RWait? && ReaderRests(s) ==> !(s.w.WWait? && WriterRests(s)) && Contents(s.q) == [])
              && (s.k.KWait? && WakerRests(s) ==> s.q.user > 0 || s.log.silent)
  {
    RunKeepsInv(tr, i);
    t, w, r, k := tr[i], tr[i], tr[i], tr[i];
    if tr[i].c.lock == Free {
      ParkedInv(tr[i]);
      w, r, k := EachMoves(tr[i]);
    } else {
      t := LockHolderSteps(tr[i]);
    }
  }
}
