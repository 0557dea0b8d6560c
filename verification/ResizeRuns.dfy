/** What the two steps of a resize cost: nothing, as long as no address that a pending resize
    has given back is handed out again before the resize has told the trace. */
module ResizeRuns {
  import opened Bytes
  import opened ResizeExact
  import opened ResizeSteps
  import opened ResizeTotals
  import opened TraceExact
  import opened TraceModules
  import opened TraceRuns
  import opened TraceTable
  import opened Wrappers

  // ----- runs without reuse are runs with one-step resizes -----

  /** The trace is told of a block at an address whose old record another resize has yet to take
      out. */
  predicate Reuses(f: Fine, e: Act)
    requires e.Ended? ==> e.k < |f.calls|
  {
    var others := if e.Ended? then Without(f.calls, e.k) else f.calls;
    Comes(f, e).Some? && Stale(others, Comes(f, e).value.addr)
  }

  /** The event with one-step resizes, at the place of the mutex section. */
  function Atomic(f: Fine, e: Act): Event
    requires !e.Begun? && (e.Ended? ==> e.k < |f.calls|)
  {
    match e
    case Made(name, addr, size) => Alloc(name, addr, size)
    case Freed(addr) => Release(addr)
    case Ended(k) => var c := f.calls[k]; Resize(c.name, Removes(f, e), c.new', c.size)
  }

  /** The trace is the same, and what it is to hold is what is live with one-step resizes. */
  ghost predicate Agrees(f: Fine, w: World) {
    w.t == f.t && forall x :: AgreesOn(f, w, x)
  }

  predicate AgreesOn(f: Fine, w: World, x: Entry) {
    Times(f.known, x) == LiveTimes(w.live, x)
  }

  lemma {:induction false} OldIsStale(calls: seq<Call>, x: Entry)
    requires OldTimes(calls, x) > 0
    ensures Stale(calls, x.addr)
  {
    if OldTime(calls[0], x) > 0 {
      assert GaveBack(calls[0], x.addr);
    } else {
      OldIsStale(calls[1..], x);
      var k :| 0 <= k < |calls[1..]| && GaveBack(calls[1..][k], x.addr);
      assert GaveBack(calls[k + 1], x.addr);
    }
  }

  /** What is live with one-step resizes is settled, or stale. */
  lemma LiveIsSettled(f: Fine, w: World, a: int)
    requires FineInv(f) && Agrees(f, w) && a in w.live
    ensures (a in f.live && a !in News(f.calls) && f.live[a] == w.live[a]) || Stale(f.calls, a)
  {
    var x := Entry(a, w.live[a]);
    assert AgreesOn(f, w, x) && MeantFor(f, x);
    if OldTimes(f.calls, x) > 0 {
      OldIsStale(f.calls, x);
    }
  }

  lemma GoesIsLive(f: Fine, e: Act, w: World)
    requires FineInv(f) && Allowed(f, e) && Agrees(f, w) && Goes(f, e).Some?
    ensures var g := Goes(f, e).value; g.addr in w.live && w.live[g.addr] == g.block
  {
    var g := Goes(f, e).value;
    GoesIsKnown(f, e);
    Named(f.known, g);
    assert AgreesOn(f, w, g);
  }

  /** The block of a resize that failed is live. */
  lemma FailedIsLive(f: Fine, k: nat, w: World)
    requires FineInv(f) && k < |f.calls| && Agrees(f, w) && Failed(f.calls[k])
    ensures var o := f.calls[k].old'.value; o.addr in w.live && w.live[o.addr] == o.block
  {
    var o := f.calls[k].old'.value;
    assert HeldLive(f.live, f.calls[k]);
    forall j | 0 <= j < |f.calls| ensures f.calls[j].new' != Some(o.addr) {
      if j < k {
        assert Held(f.calls[j]).Some? ==> Held(f.calls[j]) != Held(f.calls[k]);
      } else if k < j {
        assert Held(f.calls[k]) != Held(f.calls[j]);
      }
    }
    assert MeantFor(f, o) && AgreesOn(f, w, o);
  }

  /** A stale address after the k-th call has ended is one of another call. */
  lemma StaleElsewhere(calls: seq<Call>, k: nat, a: int)
    requires k < |calls| && Stale(calls, a) && !GaveBack(calls[k], a)
    ensures Stale(Without(calls, k), a)
  {
    var j :| 0 <= j < |calls| && GaveBack(calls[j], a);
    assert Without(calls, k)[if j < k then j else j - 1] == calls[j];
  }

  lemma AtomicIsLegal(f: Fine, e: Act, w: World)
    requires FineInv(f) && Allowed(f, e) && !e.Begun? && !Reuses(f, e) && Agrees(f, w)
    ensures Legal(w, Atomic(f, e))
  {
    match e
    case Made(_, addr, _) =>
      if addr in w.live {
        LiveIsSettled(f, w, addr);
      }
    case Freed(_) =>
    case Ended(k) =>
      var c := f.calls[k];
      if Failed(c) {
        FailedIsLive(f, k, w);
      } else if c.old'.Some? {
        GoesIsLive(f, e, w);
      }
      if c.new'.Some? && c.new'.value in w.live && !GaveBack(c, c.new'.value) {
        assert c.new'.value in News(f.calls);
        LiveIsSettled(f, w, c.new'.value);
        StaleElsewhere(f.calls, k, c.new'.value);
      }
  }

  lemma SameTrace(f: Fine, e: Act, w: World)
    requires Allowed(f, e) && !e.Begun? && w.t == f.t
    ensures Step(w, Atomic(f, e)).t == Take(f, e).t
  {
  }

  lemma KnownTimes(f: Fine, e: Act, x: Entry)
    requires FineInv(f) && Allowed(f, e)
    ensures Times(Take(f, e).known, x) ==
            Times(f.known, x) - (if Goes(f, e) == Some(x) then 1 else 0) + if Comes(f, e) == Some(x) then 1 else 0
  {
    var kept := Forget(f.known, Goes(f, e));
    if Goes(f, e).Some? {
      GoesIsKnown(f, e);
      ForgetOne(f.known, Goes(f, e).value, x);
    }
    if Comes(f, e).Some? {
      TimesAppend(kept, [Comes(f, e).value], x);
      TimesOne(Comes(f, e).value, x);
    }
  }

  lemma SameBlocks(f: Fine, e: Act, w: World, x: Entry)
    requires FineInv(f) && Allowed(f, e) && !e.Begun? && !Reuses(f, e) && Agrees(f, w)
    ensures Times(Take(f, e).known, x) == LiveTimes(LiveAfter(w.live, Atomic(f, e)), x)
  {
    assert AgreesOn(f, w, x);
    AtomicIsLegal(f, e, w);
    KnownTimes(f, e, x);
    if Goes(f, e).Some? {
      GoesIsLive(f, e, w);
    } else if e.Freed? && e.addr in w.live {
      LiveIsSettled(f, w, e.addr);
    }
  }

  lemma AtomicStep(f: Fine, e: Act, w: World)
    requires FineInv(f) && Allowed(f, e) && !e.Begun? && !Reuses(f, e) && Agrees(f, w) && Inv(w)
    ensures Legal(w, Atomic(f, e)) && Inv(Step(w, Atomic(f, e))) && Agrees(Take(f, e), Step(w, Atomic(f, e)))
  {
    AtomicIsLegal(f, e, w);
    StepKeepsInv(w, Atomic(f, e));
    SameTrace(f, e, w);
    forall x ensures AgreesOn(Take(f, e), Step(w, Atomic(f, e)), x) {
      SameBlocks(f, e, w, x);
    }
  }

  predicate ApartAt(fs: seq<Fine>, es: seq<Act>, k: nat)
    requires k < |es| && k + 1 < |fs|
  {
    Allowed(fs[k], es[k]) && !Reuses(fs[k], es[k])
  }

  /** No event up to state i reuses an address. */
  predicate ApartUpTo(fs: seq<Fine>, es: seq<Act>, i: nat)
    requires i <= |es| && i < |fs|
  {
    forall k :: 0 <= k < i ==> ApartAt(fs, es, k)
  }

  /** The run with one-step resizes. */
  function Shadow(fs: seq<Fine>, es: seq<Act>, i: nat): World
    requires i <= |es| && i < |fs| && ApartUpTo(fs, es, i)
  {
    if i == 0 then TraceRuns.Begin(fs[0].t.cfg)
    else
      assert ApartAt(fs, es, i - 1);
      if es[i - 1].Begun? then Shadow(fs, es, i - 1)
      else Step(Shadow(fs, es, i - 1), Atomic(fs[i - 1], es[i - 1]))
  }

  /** Without reuse the two-step resizes do no harm: at every moment the trace is that of a run
      with one-step resizes, in which every event is legal, and what it is to hold is what is
      live there. */
  lemma {:induction false} ShadowAgrees(fs: seq<Fine>, es: seq<Act>, i: nat)
    requires FineRun(fs, es) && i < |fs| && ApartUpTo(fs, es, i)
    ensures Inv(Shadow(fs, es, i)) && Agrees(fs[i], Shadow(fs, es, i))
    ensures i > 0 && !es[i - 1].Begun? ==>
              ApartAt(fs, es, i - 1) && Legal(Shadow(fs, es, i - 1), Atomic(fs[i - 1], es[i - 1]))
    decreases i
  {
    if i == 0 {
      RunKeepsInv([TraceRuns.Begin(fs[0].t.cfg)], [], 0);
      forall x ensures AgreesOn(fs[0], Shadow(fs, es, 0), x) {
      }
    } else {
      ShadowAgrees(fs, es, i - 1);
      RunMeans(fs, es, i - 1);
      assert StepAt(fs, es, i - 1) && ApartAt(fs, es, i - 1);
      if es[i - 1].Begun? {
        BegunAgrees(fs[i - 1], es[i - 1], Shadow(fs, es, i - 1));
      } else {
        AtomicStep(fs[i - 1], es[i - 1], Shadow(fs, es, i - 1));
      }
    }
  }

  lemma BegunAgrees(f: Fine, e: Act, w: World)
    requires Allowed(f, e) && e.Begun? && Agrees(f, w)
    ensures Agrees(Take(f, e), w)
  {
    forall x ensures AgreesOn(Take(f, e), w, x) {
      assert AgreesOn(f, w, x);
    }
  }

  // ----- what a wrong removal comes from -----

  /** Without reuse a removal of the wrong size comes from a failed resize or an unrecorded
      block, and from nothing else. */
  lemma RightSizeExactly(f: Fine, e: Act, w: World)
    requires FineInv(f) && Allowed(f, e) && !e.Begun? && Agrees(f, w) && Inv(w)
    ensures RightSize(f, e) <==> Steady(w, Atomic(f, e))
  {
    if Removes(f, e).Some? {
      RemovedBlock(f, e, w);
      assert At(w.t, w.b, w.live, Removes(f, e).value);
    }
  }

  /** The block at the address of a removal. */
  lemma RemovedBlock(f: Fine, e: Act, w: World)
    requires FineInv(f) && Allowed(f, e) && Agrees(f, w) && Removes(f, e).Some?
    ensures var a := Removes(f, e).value;
            && (Goes(f, e).Some? ==> a in w.live && Goes(f, e).value == Entry(a, w.live[a]))
            && (Goes(f, e).None? ==> a !in w.live || (e.Ended? && Failed(f.calls[e.k])))
  {
    var a := Removes(f, e).value;
    if Goes(f, e).Some? {
      GoesIsLive(f, e, w);
    } else if e.Freed? && a in w.live {
      LiveIsSettled(f, w, a);
    }
  }

  lemma RightSharesExactly(f: Fine, e: Act, w: World)
    requires FineInv(f) && Allowed(f, e) && !e.Begun? && Agrees(f, w) && Inv(w)
    ensures RightShares(f, e) <==> ModuleSteady(w, Atomic(f, e))
  {
    if Removes(f, e).Some? {
      var a := Removes(f, e).value;
      RemovedBlock(f, e, w);
      assert At(w.t, w.b, w.live, a);
      if a in w.live {
        RemovedShare(f, e, w, w.live[a]);
      }
    }
  }

  /** What the removal takes from the modules, for a block that is live. */
  lemma RemovedShare(f: Fine, e: Act, w: World, block: Block)
    requires Inv(w) && w.t == f.t && Allowed(f, e) && !e.Begun? && Removes(f, e).Some?
    requires Removes(f, e).value in w.live && w.live[Removes(f, e).value] == block
    requires Goes(f, e) == if Fails(Atomic(f, e)) then None else Some(Entry(Removes(f, e).value, block))
    ensures RightShares(f, e) <==> ModuleSteady(w, Atomic(f, e))
  {
    var a := Removes(f, e).value;
    assert At(w.t, w.b, w.live, a);
    if Lookup(w.t.recs, a).Some? {
      OwnedExactly(w.t, block, Lookup(w.t.recs, a).value);
    }
    if Owns(w.t, block.name) {
      var m := FindModule(w.t.modules, block.name.value);
      assert RightShare(f, e, m) <==> ShareOf(Found(f, e), m) == if Fails(Atomic(f, e)) then 0 else block.size;
    }
    if w.t.modules != [] {
      assert RightShare(f, e, 0) <==>
             ShareOf(Found(f, e), 0) == WeighOne(Goes(f, e), Some(w.t.modules[0].name));
    }
  }
}
