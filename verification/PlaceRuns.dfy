/** Blocks stay where they were sent, through all interleavings of the data queue's threads. */
module PlaceRuns {
  import opened Bytes
  import opened QueueLayout
  import opened QueuePlaces
  import opened QueuePromises
  import opened QueueThreads

  /** Nothing that the places depend on has changed. */
  lemma SamePlaces(q: Queue, p: Queue)
    requires QueueLayout.Valid(q) && p == q.(user := p.user, quit := p.quit)
    ensures QueueLayout.Valid(p) && Places(p) == Places(q)
  {
  }

  /** The step by which the writer sends a block. */
  predicate Sends(s: Sys, t: Sys) {
    s.w.WSend? && t.w == WNotify
  }

  /** How a step changes the lengths of the logs and the places. */
  ghost predicate Shifts(s: Sys, t: Sys)
    requires QueueLayout.Valid(s.q) && QueueLayout.Valid(t.q)
  {
    if Sends(s, t) then
      && |t.log.sent| == |s.log.sent| + 1 && |t.log.out| == |s.log.out|
      && Places(t.q) == Places(s.q) + [s.q.wp + HEAD]
    else
      && |t.log.sent| == |s.log.sent|
      && if |t.log.out| == |s.log.out| then Places(t.q) == Places(s.q)
         else |t.log.out| == |s.log.out| + 1 && Places(s.q) != [] && Places(t.q) == Places(s.q)[1..]
  }

  lemma WriterReserves(q: Queue, n: nat, p: Queue)
    requires QueueLayout.Valid(q) && n + HEAD <= |q.buf| && p == Reserve(q, n)
    ensures QueueLayout.Valid(p) && Places(p) == Places(q)
  {
    var w := Wrap(q, n + HEAD);
    WrapKeepsPlaces(q, n + HEAD);
    SamePlaces(w, p);
  }

  lemma WriterSends(s: Sys, t: Sys, m: nat)
    requires QueueLayout.Valid(s.q) && s.w.WSend? && s.w.m == m && WriterStep(s, t)
    ensures QueueLayout.Valid(t.q) && Shifts(s, t)
  {
    if m == 0 || !CanSend(s.q, m) {
      SamePlaces(s.q, t.q);
    } else {
      SendPlaces(s.q, m);
    }
  }

  lemma WriterFills(s: Sys, t: Sys, n: nat)
    requires QueueLayout.Valid(s.q) && s.w == WHold(n) && Reserved(s.q, n) && WriterStep(s, t)
    ensures QueueLayout.Valid(t.q) && Shifts(s, t)
  {
    if !t.w.WSubmit? {
      WritingKeepsPlaces(s.q, n, t.q.buf);
    }
  }

  lemma WriterRests(s: Sys, t: Sys)
    requires QueueLayout.Valid(s.q) && WriterStep(s, t) && !s.w.WSend? && !s.w.WHold? && (s.w.WTry? ==> s.q.quit)
    ensures QueueLayout.Valid(t.q) && Shifts(s, t)
  {
    SamePlaces(s.q, t.q);
  }

  lemma WriterShifts(s: Sys, t: Sys)
    requires DataInv(s) && WriterStep(s, t)
    ensures QueueLayout.Valid(t.q) && Shifts(s, t)
  {
    if s.w.WTry? && !s.q.quit {
      WriterReserves(s.q, s.w.n, t.q);
    } else if s.w.WHold? {
      WriterFills(s, t, s.w.n);
    } else if s.w.WSend? {
      WriterSends(s, t, s.w.m);
    } else {
      WriterRests(s, t);
    }
  }

  lemma ReaderShifts(s: Sys, t: Sys)
    requires QueueLayout.Valid(s.q) && ReaderStep(s, t)
    ensures QueueLayout.Valid(t.q) && Shifts(s, t)
  {
    if s.r.RUnlock? && !s.r.keep && HaveData(s.q) {
      PlacesStand(s.q);
      PopPlaces(s.q);
      SamePlaces(Pop(s.q), t.q);
    } else {
      SamePlaces(s.q, t.q);
    }
  }

  lemma FlusherShifts(s: Sys, t: Sys)
    requires QueueLayout.Valid(s.q) && FlusherStep(s, t)
    ensures QueueLayout.Valid(t.q) && Shifts(s, t)
  {
    if t.f == FNotify {
      PlacesStand(s.q);
      PopPlaces(s.q);
    } else {
      SamePlaces(s.q, t.q);
    }
  }

  lemma StepShifts(s: Sys, t: Sys)
    requires Inv(s) && Next(s, t)
    ensures QueueLayout.Valid(t.q) && Shifts(s, t)
  {
    if WriterStep(s, t) {
      WriterShifts(s, t);
    } else if ReaderStep(s, t) {
      ReaderShifts(s, t);
    } else if FlusherStep(s, t) {
      FlusherShifts(s, t);
    } else {
      SamePlaces(s.q, t.q);
    }
  }

  // ----- runs -----

  /** Step j of a run sends a block. */
  predicate SendsAt(tr: seq<Sys>, j: nat)
    requires j + 1 < |tr|
  {
    Sends(tr[j], tr[j + 1])
  }

  /** The places at which the blocks of a run were sent. */
  function SentPlaces(tr: seq<Sys>, i: nat): seq<int>
    requires i < |tr|
  {
    if i == 0 then []
    else if SendsAt(tr, i - 1) then SentPlaces(tr, i - 1) + [tr[i - 1].q.wp + HEAD]
    else SentPlaces(tr, i - 1)
  }

  /** `sent` are the places of all blocks ever sent; those still queued stand at theirs. */
  ghost predicate InPlace(s: Sys, sent: seq<int>) {
    && QueueLayout.Valid(s.q) && |s.log.out| <= |s.log.sent| == |sent|
    && sent[|s.log.out|..] == Places(s.q)
  }

  lemma StepInPlace(s: Sys, t: Sys, sent: seq<int>)
    requires InPlace(s, sent) && QueueLayout.Valid(t.q) && Shifts(s, t)
    ensures InPlace(t, if Sends(s, t) then sent + [s.q.wp + HEAD] else sent)
  {
  }

  /** In every state of every run the queued blocks stand where they were sent. */
  lemma {:induction false} QueuedInPlace(tr: seq<Sys>, i: nat)
    requires Run(tr) && i < |tr|
    ensures InPlace(tr[i], SentPlaces(tr, i))
  {
    if i == 0 {
      StartInv(tr[0]);
    } else {
      QueuedInPlace(tr, i - 1);
      RunKeepsInv(tr, i - 1);
      assert StepAt(tr, i - 1);
      StepShifts(tr[i - 1], tr[i]);
      StepInPlace(tr[i - 1], tr[i], SentPlaces(tr, i - 1));
    }
  }

  /** Later sends leave the places of earlier ones alone. */
  lemma {:induction false} SentPlaceAt(tr: seq<Sys>, j: nat, i: nat)
    requires Run(tr) && j < i < |tr| && SendsAt(tr, j)
    ensures |tr[j].log.sent| < |SentPlaces(tr, i)| && SentPlaces(tr, i)[|tr[j].log.sent|] == tr[j].q.wp + HEAD
    decreases i
  {
    QueuedInPlace(tr, j);
    if j + 1 < i {
      SentPlaceAt(tr, j, i - 1);
    }
  }

  /** A reader that holds a block has the place of the oldest one that is queued. */
  lemma ReaderPlace(tr: seq<Sys>, i: nat)
    requires Run(tr) && i < |tr| && ReaderHolds(tr[i].r)
    ensures |tr[i].log.out| < |SentPlaces(tr, i)| && SentPlaces(tr, i)[|tr[i].log.out|] == tr[i].r.at
  {
    QueuedInPlace(tr, i);
    RunKeepsInv(tr, i);
    PlacesStand(tr[i].q);
  }

  /** A block is read where it was sent: a reader that holds the block of step j has been given
      the very offset at which the writer had its reservation then. */
  lemma ReadInPlace(tr: seq<Sys>, j: nat, i: nat)
    requires Run(tr) && j < i < |tr| && SendsAt(tr, j)
    requires ReaderHolds(tr[i].r) && |tr[i].log.out| == |tr[j].log.sent|
    ensures tr[i].r.at == tr[j].q.wp + HEAD
  {
    SentPlaceAt(tr, j, i);
    ReaderPlace(tr, i);
  }
}
