/** The events that make the trace wrong when resizes are two steps: those of one-step resizes,
    and the reuse of an address that a pending resize has given back. */
module ResizeApart {
  import opened Bytes
  import opened ResizeExact
  import opened ResizeRuns
  import opened ResizeSteps
  import opened ResizeTotals
  import opened TraceExact
  import opened TraceModules
  import opened TraceRuns
  import opened TraceTable
  import opened Wrappers

  /** A record that fits its block is the one that the table is to hold. */
  lemma HoldsIsRecord(t: Trace, x: Entry, r: Record)
    requires NamesDistinct(t.modules) && r.addr == x.addr && Holds(t.cfg, t.modules, x.block, r)
    requires !t.cfg.byModule ==> t.modules == []
    ensures r == RecordOf(t, x)
  {
    if r.owned {
      assert FindModule(t.modules, x.block.name.value) == r.id;
    }
  }

  lemma RightExactly(f: Fine, e: Act, w: World)
    requires FineInv(f) && Allowed(f, e) && !e.Begun? && Agrees(f, w) && Inv(w) && NothingOutside(w.b)
    ensures Right(f, e) <==> Harmless(w, Atomic(f, e))
  {
    if Removes(f, e).Some? {
      var a := Removes(f, e).value;
      RemovedBlock(f, e, w);
      assert At(w.t, w.b, w.live, a);
      if Goes(f, e).Some? {
        HoldsIsRecord(w.t, Goes(f, e).value, Lookup(w.t.recs, a).value);
      } else if e.Ended? {
        FailedIsLive(f, e.k, w);
      }
    }
  }

  predicate HarmlessAt(fs: seq<Fine>, es: seq<Act>, k: nat)
    requires k < |es| && k + 1 < |fs| && ApartUpTo(fs, es, k + 1)
  {
    assert ApartAt(fs, es, k);
    es[k].Begun? || Harmless(Shadow(fs, es, k), Atomic(fs[k], es[k]))
  }

  predicate SteadyAt(fs: seq<Fine>, es: seq<Act>, k: nat)
    requires k < |es| && k + 1 < |fs| && ApartUpTo(fs, es, k + 1)
  {
    assert ApartAt(fs, es, k);
    es[k].Begun? || Steady(Shadow(fs, es, k), Atomic(fs[k], es[k]))
  }

  predicate ModuleSteadyAt(fs: seq<Fine>, es: seq<Act>, k: nat)
    requires k < |es| && k + 1 < |fs| && ApartUpTo(fs, es, k + 1)
  {
    assert ApartAt(fs, es, k);
    es[k].Begun? || ModuleSteady(Shadow(fs, es, k), Atomic(fs[k], es[k]))
  }

  lemma RightCauses(fs: seq<Fine>, es: seq<Act>, k: nat)
    requires FineRun(fs, es) && k < |es| && ApartUpTo(fs, es, k + 1)
    ensures RightSizeAt(fs, es, k) <==> SteadyAt(fs, es, k)
    ensures RightSharesAt(fs, es, k) <==> ModuleSteadyAt(fs, es, k)
  {
    ShadowAgrees(fs, es, k);
    RunMeans(fs, es, k);
    assert ApartAt(fs, es, k);
    if es[k].Begun? {
      BegunIsRight(fs[k], es[k]);
    } else {
      RightSizeExactly(fs[k], es[k], Shadow(fs, es, k));
      RightSharesExactly(fs[k], es[k], Shadow(fs, es, k));
    }
  }

  lemma BegunIsRight(f: Fine, e: Act)
    requires e.Begun?
    ensures Right(f, e) && RightSize(f, e) && RightShares(f, e)
  {
    forall m | 0 <= m < |f.t.modules| ensures RightShare(f, e, m) {
    }
  }

  predicate HarmlessUpTo(fs: seq<Fine>, es: seq<Act>, i: nat)
    requires i <= |es| && i < |fs| && ApartUpTo(fs, es, i)
  {
    i == 0 || (HarmlessUpTo(fs, es, i - 1) && HarmlessAt(fs, es, i - 1))
  }

  lemma OneMore(fs: seq<Fine>, es: seq<Act>, i: nat)
    requires 0 < i <= |es| && i < |fs|
    ensures RightUpTo(fs, es, i) <==> RightUpTo(fs, es, i - 1) && RightAt(fs, es, i - 1)
  {
  }

  /** The table of the run with one-step resizes is exact. */
  predicate Clean(fs: seq<Fine>, es: seq<Act>, i: nat)
    requires i <= |es| && i < |fs| && ApartUpTo(fs, es, i)
  {
    NothingOutside(Shadow(fs, es, i).b)
  }

  lemma {:induction false} RightTable(fs: seq<Fine>, es: seq<Act>, i: nat)
    requires FineRun(fs, es) && i < |fs| && ApartUpTo(fs, es, i)
    ensures RightUpTo(fs, es, i) <==> HarmlessUpTo(fs, es, i)
    decreases i
  {
    if i > 0 {
      OneMore(fs, es, i);
      RightTable(fs, es, i - 1);
      if RightUpTo(fs, es, i - 1) {
        RightIsClean(fs, es, i - 1);
        TableCause(fs, es, i - 1);
      }
    }
  }

  lemma {:induction false} RightIsClean(fs: seq<Fine>, es: seq<Act>, i: nat)
    requires FineRun(fs, es) && i < |fs| && ApartUpTo(fs, es, i) && RightUpTo(fs, es, i)
    ensures Clean(fs, es, i)
    decreases i
  {
    if i > 0 {
      RightIsClean(fs, es, i - 1);
      assert RightAt(fs, es, i - 1);
      TableCause(fs, es, i - 1);
    }
  }

  lemma TableCause(fs: seq<Fine>, es: seq<Act>, k: nat)
    requires FineRun(fs, es) && k < |es| && ApartUpTo(fs, es, k + 1)
    requires Clean(fs, es, k)
    ensures RightAt(fs, es, k) <==> HarmlessAt(fs, es, k)
    ensures HarmlessAt(fs, es, k) ==> Clean(fs, es, k + 1)
  {
    ShadowAgrees(fs, es, k);
    ShadowAgrees(fs, es, k + 1);
    RunMeans(fs, es, k);
    assert ApartAt(fs, es, k);
    if es[k].Begun? {
      BegunIsRight(fs[k], es[k]);
    } else {
      RightExactly(fs[k], es[k], Shadow(fs, es, k));
      HarmlessStep(Shadow(fs, es, k), Atomic(fs[k], es[k]));
    }
  }

  /** Over all interleavings in which no address is reused in the middle of a resize: the table
      is exact throughout if and only if every new block found a slot and no resize failed; the
      total, if and only if no recorded block failed to be resized and no unrecorded one was
      released; the totals of the modules, if and only if neither that nor the release of a
      nameless block has happened, empty blocks and times without modules apart. */
  lemma CausesExactly(fs: seq<Fine>, es: seq<Act>, i: nat)
    requires FineRun(fs, es) && i < |fs| && FitsUpTo(fs, i) && ApartUpTo(fs, es, i)
    ensures ExactUpTo(fs, i) <==> HarmlessUpTo(fs, es, i)
    ensures TotalExactUpTo(fs, i) <==> forall k :: 0 <= k < i ==> SteadyAt(fs, es, k)
    ensures ModulesExactTo(fs, i) <==> forall k :: 0 <= k < i ==> ModuleSteadyAt(fs, es, k)
  {
    RecordsExactly(fs, es, i);
    RightTable(fs, es, i);
    TotalExactly(fs, es, i);
    SharesExactly(fs, es, i);
    forall k | 0 <= k < i
      ensures RightSizeAt(fs, es, k) <==> SteadyAt(fs, es, k)
      ensures RightSharesAt(fs, es, k) <==> ModuleSteadyAt(fs, es, k)
    {
      RightCauses(fs, es, k);
    }
  }

  // ----- a run in which an address is reused -----

  function Plain(recs: seq<Record>, usage: nat, peak: nat): Trace {
    Trace(Config(4, false), recs, usage, peak, [], false)
  }

  function Nobody(addr: int, size: nat): Record {
    Record(addr, size, 0, false)
  }

  function Piece(size: nat): Block {
    Block(size, None)
  }

  const FIRST_FOUR := Made(None, 1, 4)
  const NEXT_TEN := Made(None, 2, 10)
  const TEN_TO_TWENTY := Begun(None, Some(2), Some(3), 20)
  const REUSED := Made(None, 2, 8)
  const PENDING := Call(None, Some(Entry(2, Block(10, None))), Some(3), 20)

  const AFTER_TEN := Fine(Plain([Nobody(1, 4), Nobody(2, 10)], 14, 14), map[1 := Piece(4), 2 := Piece(10)], [],
                          [Entry(1, Piece(4)), Entry(2, Piece(10))])

  lemma TenAreMade() returns (f1: Fine)
    ensures Allowed(Fresh(Config(4, false)), FIRST_FOUR) && f1 == Take(Fresh(Config(4, false)), FIRST_FOUR)
    ensures HasSlot(f1.t) && Allowed(f1, NEXT_TEN) && Take(f1, NEXT_TEN) == AFTER_TEN
  {
    f1 := Fine(Plain([Nobody(1, 4)], 4, 4), map[1 := Piece(4)], [], [Entry(1, Piece(4))]);
    assert [] + [Nobody(1, 4)] == [Nobody(1, 4)] && [] + [Entry(1, Piece(4))] == [Entry(1, Piece(4))];
    assert [Nobody(1, 4)] + [Nobody(2, 10)] == [Nobody(1, 4), Nobody(2, 10)];
    assert [Entry(1, Piece(4))] + [Entry(2, Piece(10))] == AFTER_TEN.known;
  }

  const AFTER_REUSE := Fine(Plain([Nobody(1, 4), Nobody(2, 10), Nobody(2, 8)], 22, 22),
                            map[1 := Piece(4), 3 := Piece(20), 2 := Piece(8)], [PENDING],
                            [Entry(1, Piece(4)), Entry(2, Piece(10)), Entry(2, Piece(8))])

  lemma TwoIsReused() returns (f3: Fine)
    ensures Allowed(AFTER_TEN, TEN_TO_TWENTY) && f3 == Take(AFTER_TEN, TEN_TO_TWENTY)
    ensures HasSlot(f3.t) && Allowed(f3, REUSED) && Reuses(f3, REUSED) && Take(f3, REUSED) == AFTER_REUSE
  {
    f3 := AFTER_TEN.(live := map[1 := Piece(4), 3 := Piece(20)], calls := [PENDING]);
    assert [] + [PENDING] == [PENDING];
    assert f3 == Take(AFTER_TEN, TEN_TO_TWENTY);
    assert GaveBack(f3.calls[0], 2);
    assert f3.t.recs + [Nobody(2, 8)] == AFTER_REUSE.t.recs && f3.known + [Entry(2, Piece(8))] == AFTER_REUSE.known;
    assert f3.live[2 := Piece(8)] == AFTER_REUSE.live;
  }

  const AFTER_RELEASE := Fine(Plain([Nobody(2, 8), Nobody(2, 10)], 18, 22),
                              map[3 := Piece(20), 2 := Piece(8)], [PENDING],
                              [Entry(2, Piece(10)), Entry(2, Piece(8))])

  lemma FourAreReleased()
    ensures Allowed(AFTER_REUSE, Freed(1)) && Take(AFTER_REUSE, Freed(1)) == AFTER_RELEASE
  {
    assert SwapRemove(AFTER_REUSE.t.recs, 0) == AFTER_RELEASE.t.recs;
    assert Without(AFTER_REUSE.known, 0) == AFTER_RELEASE.known;
    assert AFTER_REUSE.live - {1} == AFTER_RELEASE.live;
  }

  const AFTER_RESIZE := Fine(Plain([Nobody(2, 10), Nobody(3, 20)], 30, 30), map[3 := Piece(20), 2 := Piece(8)], [],
                             [Entry(2, Piece(8)), Entry(3, Piece(20))])

  lemma EightAreTaken()
    ensures Allowed(AFTER_RELEASE, Ended(0)) && HasSlot(Emptied(AFTER_RELEASE, Ended(0)))
    ensures Take(AFTER_RELEASE, Ended(0)) == AFTER_RESIZE
  {
    assert SwapRemove(AFTER_RELEASE.t.recs, 0) == [Nobody(2, 10)];
    assert Without(AFTER_RELEASE.known, 0) == [Entry(2, Piece(8))] && Without(AFTER_RELEASE.calls, 0) == [];
    assert [Nobody(2, 10)] + [Nobody(3, 20)] == AFTER_RESIZE.t.recs;
    assert [Entry(2, Piece(8))] + [Entry(3, Piece(20))] == AFTER_RESIZE.known;
  }

  lemma EndIsWrong()
    ensures AFTER_RESIZE.t.usage == 30 && SumOf(AFTER_RESIZE.known, None) == 28 && !Exact(AFTER_RESIZE)
  {
    assert AFTER_RESIZE.known[1..] == [Entry(3, Piece(20))] && [Entry(3, Piece(20))][1..] == [];
    assert AFTER_RESIZE.t.recs[1..] == [Nobody(3, 20)];
    assert Records(AFTER_RESIZE.t, AFTER_RESIZE.known) == [Nobody(2, 8), Nobody(3, 20)];
    assert [Nobody(2, 8), Nobody(3, 20)][1..] == [Nobody(3, 20)];
    assert Differs(AFTER_RESIZE, Nobody(2, 10)) == 1;
  }

  /** A record that was added has found a slot. */
  predicate SlotAt(fs: seq<Fine>, es: seq<Act>, k: nat)
    requires k < |es| && k + 1 < |fs|
  {
    Allowed(fs[k], es[k]) && (Comes(fs[k], es[k]).Some? ==> HasSlot(Emptied(fs[k], es[k])))
  }

  /** A run in which every new block has found a slot, up to this state. */
  ghost predicate Roomy(fs: seq<Fine>, es: seq<Act>, f: Fine) {
    FineRun(fs, es) && fs[|es|] == f && forall k :: 0 <= k < |es| ==> SlotAt(fs, es, k)
  }

  lemma Extend(fs: seq<Fine>, es: seq<Act>, f: Fine, e: Act) returns (fs': seq<Fine>, es': seq<Act>)
    requires Roomy(fs, es, f) && Allowed(f, e) && (Comes(f, e).Some? ==> HasSlot(Emptied(f, e)))
    ensures Roomy(fs', es', Take(f, e))
  {
    fs', es' := fs + [Take(f, e)], es + [e];
    forall k | 0 <= k < |es'| ensures StepAt(fs', es', k) && SlotAt(fs', es', k) {
      if k < |es| {
        assert StepAt(fs, es, k) && SlotAt(fs, es, k);
      }
    }
  }

  /** Four bytes at 1 and ten at 2; the ten are resized to twenty and move to 3; before the trace
      is told, another thread is given eight bytes at 2 and the four are released, so that the
      eight stand before the ten in the table.  The resize then takes the eight out.  No slot was
      missing, no resize failed and none is pending, but the table and the total are wrong. */
  lemma WrongRecordTaken() returns (fs: seq<Fine>, es: seq<Act>)
    ensures Roomy(fs, es, AFTER_RESIZE)
    ensures AFTER_RESIZE.calls == [] && !Exact(AFTER_RESIZE)
    ensures AFTER_RESIZE.t.usage == 30 && SumOf(AFTER_RESIZE.known, None) == 28
  {
    var f0 := Fresh(Config(4, false));
    var f1 := TenAreMade();
    var f3 := TwoIsReused();
    FourAreReleased();
    EightAreTaken();
    EndIsWrong();
    fs, es := Extend([f0], [], f0, FIRST_FOUR);
    fs, es := Extend(fs, es, f1, NEXT_TEN);
    fs, es := Extend(fs, es, AFTER_TEN, TEN_TO_TWENTY);
    fs, es := Extend(fs, es, f3, REUSED);
    fs, es := Extend(fs, es, AFTER_REUSE, Freed(1));
    fs, es := Extend(fs, es, AFTER_RELEASE, Ended(0));
  }
}
