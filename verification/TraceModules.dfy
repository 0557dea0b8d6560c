/** When the totals per module are exact, and runs in which the trace is not. */
module TraceModules {
  import opened Bytes
  import opened TraceExact
  import opened TraceRuns
  import opened TraceTable
  import opened Wrappers

  // ----- the usage of a module -----

  /** By how much the usage of module m differs from the live blocks of its name. */
  function Gap(b: Books, m: nat): int {
    Shares(b.leaked, m) - Shares(b.orphans, m) - StraySum(b, m)
  }

  /** A module's usage, modulo 2^32: the live blocks that were asked for under its name, and
      the gap. */
  lemma ModuleUsage(w: World, m: nat)
    requires Inv(w) && m < |w.t.modules|
    ensures w.t.modules[m].usage == (LiveSum(w.live, Some(w.t.modules[m].name)) + Gap(w.b, m)) % U32_RANGE
  {
    assert ModuleFits(w.t, w.b, m);
    LiveShares(w.t, w.b, w.live, m);
    var u, s, total := w.t.modules[m].usage, StraySum(w.b, m), ModuleTotal(w.t, w.b, m);
  }

  /** The blocks of this name are charged to a module. */
  predicate Owns(t: Trace, name: Option<string>) {
    name.Some? && FindModule(t.modules, name.value) < |t.modules|
  }

  /** An event does none of these to a block that is not empty, once there is a module: fail
      to resize it while it is recorded, take it out of the table although no module owns it,
      release it without a record although a module owns it. */
  predicate ModuleSteady(w: World, e: Event) {
    var a := Leaving(e);
    a.None? || a.value !in w.live || w.live[a.value].size == 0 || w.t.modules == []
    || (var recorded := Lookup(w.t.recs, a.value).Some?;
        if Fails(e) then !recorded else recorded == Owns(w.t, w.live[a.value].name))
  }

  predicate NoShares(recs: seq<Record>, modules: nat) {
    forall m :: 0 <= m < modules ==> Shares(recs, m) == 0
  }

  /** No gap, and nothing that could make one. */
  predicate TidyBooks(b: Books, modules: nat) {
    NoShares(b.leaked, modules) && NoShares(b.orphans, modules) && Sum(b.strays) == 0
  }

  predicate Tidy(w: World) {
    TidyBooks(w.b, |w.t.modules|)
  }

  ghost predicate HasGap(t: Trace, b: Books) {
    exists m :: 0 <= m < |t.modules| && Gap(b, m) % U32_RANGE != 0
  }

  lemma {:induction false} MemberShare(recs: seq<Record>, i: nat, m: nat)
    requires i < |recs|
    ensures Share(recs[i], m) <= Shares(recs, m)
  {
    if i > 0 {
      MemberShare(recs[1..], i - 1, m);
    }
  }

  /** Whether a record is owned is decided by the name of its block. */
  lemma OwnedExactly(t: Trace, block: Block, r: Record)
    requires Holds(t.cfg, t.modules, block, r) && (!t.cfg.byModule ==> t.modules == [])
    ensures r.owned <==> Owns(t, block.name)
  {
  }

  lemma MakesGap(t: Trace, b: Books, m: nat)
    requires m < |t.modules| && Gap(b, m) % U32_RANGE != 0
    ensures HasGap(t, b)
  {
  }

  /** Taking a recorded block out of the table, whether it lives on or not. */
  lemma RemovalGap(w: World, addr: int, c: Books, failed: bool)
    requires Inv(w) && w.calm && Tidy(w) && Find(w.t.recs, addr) < |w.t.recs|
    requires c == if failed then FailedStep(w.t, w.b, addr).1 else ReleaseStep(w.t, w.b, addr).1
    ensures addr in w.live
    ensures var steady := w.live[addr].size == 0 || w.t.modules == [] || (!failed && Owns(w.t, w.live[addr].name));
            && (steady ==> TidyBooks(c, |w.t.modules|))
            && (!steady ==> HasGap(w.t, c))
  {
    assert At(w.t, w.b, w.live, addr);
    var r := w.t.recs[Find(w.t.recs, addr)];
    MemberSum(w.t.recs, Find(w.t.recs, addr));
    OwnedExactly(w.t, w.live[addr], r);
    if r.owned {
      OwnedGap(w.t, w.b, c, r, failed);
    } else {
      StrayGap(w.t, w.b, c, r, failed);
    }
  }

  /** A failed resize of an owned block opens a gap, its release does not. */
  lemma OwnedGap(t: Trace, b: Books, c: Books, r: Record, failed: bool)
    requires TidyBooks(b, |t.modules|)
    requires r.owned && r.id < |t.modules| && r.size < U32_RANGE
    requires c == if failed then b.(orphans := b.orphans + [r]) else b
    ensures var steady := r.size == 0 || !failed;
            && (steady ==> TidyBooks(c, |t.modules|))
            && (!steady ==> HasGap(t, c))
  {
    forall m | 0 <= m < |t.modules|
      ensures Shares(c.orphans, m) == if failed && m == r.id then r.size else 0
    {
      SumPush(b.orphans, r, m);
    }
    if failed && r.size != 0 {
      assert StraySum(c, r.id) == 0 && Gap(c, r.id) + r.size == 0;
      MakesGap(t, c, r.id);
    }
  }

  /** A block without an owner is subtracted from the first module. */
  lemma StrayGap(t: Trace, b: Books, c: Books, r: Record, failed: bool)
    requires TidyBooks(b, |t.modules|)
    requires !r.owned && r.id == 0 && r.size < U32_RANGE && (!t.cfg.byModule ==> t.modules == [])
    requires c == b.(orphans := if failed then b.orphans + [r] else b.orphans, strays := StraysAfter(t, b, r))
    ensures var steady := r.size == 0 || t.modules == [];
            && (steady ==> TidyBooks(c, |t.modules|))
            && (!steady ==> HasGap(t, c))
  {
    forall m | 0 <= m < |t.modules| ensures Shares(c.orphans, m) == 0 {
      SumPush(b.orphans, r, m);
    }
    SumPush(b.strays, r, 0);
    if r.size != 0 && t.modules != [] {
      assert Gap(c, 0) + r.size == 0;
      MakesGap(t, c, 0);
    }
  }

  /** Releasing a block that the table does not hold. */
  lemma UnrecordedGap(w: World, addr: int, c: Books)
    requires Inv(w) && w.calm && Tidy(w) && Find(w.t.recs, addr) == |w.t.recs| && addr in w.live
    requires c == ReleaseStep(w.t, w.b, addr).1
    ensures var steady := w.live[addr].size == 0 || w.t.modules == [] || !Owns(w.t, w.live[addr].name);
            && (steady ==> TidyBooks(c, |w.t.modules|))
            && (!steady ==> HasGap(w.t, c))
  {
    assert At(w.t, w.b, w.live, addr);
    var j, k := Find(w.b.counted, addr), Find(w.b.orphans, addr);
    if j < |w.b.counted| {
      OwnedExactly(w.t, w.live[addr], w.b.counted[j]);
      MemberSum(w.b.counted, j);
      LeakGap(w.t, w.b, c, w.b.counted[j]);
    } else {
      OwnedExactly(w.t, w.live[addr], w.b.orphans[k]);
      OrphanGap(w.t, w.b, c, k);
    }
  }

  lemma LeakGap(t: Trace, b: Books, c: Books, r: Record)
    requires TidyBooks(b, |t.modules|)
    requires (r.owned ==> r.id < |t.modules|) && r.size < U32_RANGE
    requires c == b.(counted := c.counted, leaked := b.leaked + [r])
    ensures var steady := r.size == 0 || !r.owned;
            && (steady ==> TidyBooks(c, |t.modules|))
            && (!steady ==> HasGap(t, c))
  {
    forall m | 0 <= m < |t.modules| ensures Shares(c.leaked, m) == Share(r, m) {
      SumPush(b.leaked, r, m);
    }
    if r.owned && r.size != 0 {
      assert StraySum(c, r.id) == 0 && Gap(c, r.id) == r.size;
      MakesGap(t, c, r.id);
    }
  }

  lemma OrphanGap(t: Trace, b: Books, c: Books, k: nat)
    requires TidyBooks(b, |t.modules|)
    requires k < |b.orphans| && c == b.(orphans := SwapRemove(b.orphans, k))
    requires b.orphans[k].owned ==> b.orphans[k].id < |t.modules|
    ensures b.orphans[k].size == 0 || !b.orphans[k].owned
    ensures TidyBooks(c, |t.modules|)
  {
    forall m | 0 <= m < |t.modules| ensures Shares(c.orphans, m) == 0 {
      SumsWithout(b.orphans, k, m);
    }
    if b.orphans[k].owned {
      MemberShare(b.orphans, k, b.orphans[k].id);
    }
  }

  // ----- steps and runs -----

  /** What is left of the books and the trace once the old block is gone. */
  function After(w: World, e: Event): (Trace, Books) {
    var a := Leaving(e);
    if a.None? then (w.t, w.b)
    else if Fails(e) then FailedStep(w.t, w.b, a.value)
    else ReleaseStep(w.t, w.b, a.value)
  }

  lemma SteadyRemoval(w: World, e: Event)
    requires Inv(w) && Legal(w, e) && w.calm && Tidy(w)
    ensures var (t, c) := After(w, e);
            && NamesKept(w.t, t) && |t.modules| == |w.t.modules|
            && (ModuleSteady(w, e) ==>
                  TidyBooks(c, |w.t.modules|))
            && (!ModuleSteady(w, e) ==> HasGap(w.t, c))
  {
    var a := Leaving(e);
    if a.Some? {
      RemoveTraceNames(w.t, a.value);
      assert At(w.t, w.b, w.live, a.value);
      if Find(w.t.recs, a.value) < |w.t.recs| {
        RemovalGap(w, a.value, After(w, e).1, Fails(e));
      } else if !Fails(e) && a.value in w.live {
        UnrecordedGap(w, a.value, After(w, e).1);
      }
    }
  }

  /** What an allocation adds to the books has no part in any gap. */
  lemma StepBooks(w: World, e: Event)
    ensures var c := After(w, e).1; var v := Step(w, e);
            v.b.leaked == c.leaked && v.b.orphans == c.orphans && v.b.strays == c.strays
    ensures |Step(w, e).t.modules| >= |After(w, e).0.modules|
  {
  }

  lemma OrphansOfNobody(t: Trace, b: Books, live: map<int, Block>)
    requires Places(t, b, live)
    ensures IdsFit(b.orphans, |t.modules|)
  {
    ListsHold(t, b, live);
  }

  lemma TidyStep(w: World, e: Event)
    requires Inv(w) && Legal(w, e) && w.calm && Tidy(w)
    ensures ModuleSteady(w, e) ==> Tidy(Step(w, e))
    ensures !ModuleSteady(w, e) ==> HasGap(Step(w, e).t, Step(w, e).b)
  {
    var (t, c) := After(w, e);
    var v := Step(w, e);
    SteadyRemoval(w, e);
    StepBooks(w, e);
    StepKeepsInv(w, e);
    if ModuleSteady(w, e) {
      AfterInv(w, e);
      forall m | 0 <= m < |v.t.modules| ensures Shares(v.b.leaked, m) == 0 && Shares(v.b.orphans, m) == 0 {
        if m >= |t.modules| {
          SharesOfNobody(c.leaked, |t.modules|, m);
          SharesOfNobody(c.orphans, |t.modules|, m);
        }
      }
    } else {
      var m :| 0 <= m < |w.t.modules| && Gap(c, m) % U32_RANGE != 0;
      assert Gap(v.b, m) == Gap(c, m);
      MakesGap(v.t, v.b, m);
    }
  }

  lemma AfterInv(w: World, e: Event)
    requires Inv(w) && Legal(w, e)
    ensures var (t, c) := After(w, e); IdsFit(c.leaked, |t.modules|) && IdsFit(c.orphans, |t.modules|)
  {
    var (t, c) := After(w, e);
    var a := Leaving(e);
    if a.None? {
      OrphansOfNobody(w.t, w.b, w.live);
    } else if Fails(e) {
      FailedKeepsPlaces(w.t, w.b, w.live, a.value);
      FailedKeepsBalance(w.t, w.b, a.value);
      OrphansOfNobody(t, c, w.live);
    } else {
      ReleaseKeepsPlaces(w.t, w.b, w.live, a.value);
      ReleaseKeepsBalance(w.t, w.b, a.value);
      OrphansOfNobody(t, c, w.live - {a.value});
    }
  }

  /** Every module's usage is the size of the live blocks that were asked for under its name. */
  ghost predicate ModulesExact(w: World) {
    forall m :: 0 <= m < |w.t.modules| ==> w.t.modules[m].usage == LiveSum(w.live, Some(w.t.modules[m].name))
  }

  lemma TidyIsExact(w: World)
    requires Inv(w) && w.calm && Tidy(w)
    ensures ModulesExact(w)
  {
    forall m | 0 <= m < |w.t.modules| ensures w.t.modules[m].usage == LiveSum(w.live, Some(w.t.modules[m].name)) {
      ModuleUsage(w, m);
      LiveShares(w.t, w.b, w.live, m);
      SharesFit(w.t.recs, m);
      SharesFit(w.b.counted, m);
    }
  }

  lemma {:induction false} SharesFit(recs: seq<Record>, m: nat)
    ensures Shares(recs, m) <= Sum(recs)
  {
    if recs != [] {
      SharesFit(recs[1..], m);
    }
  }

  lemma GapIsNotExact(w: World)
    requires Inv(w) && HasGap(w.t, w.b)
    ensures !ModulesExact(w)
  {
    var m :| 0 <= m < |w.t.modules| && Gap(w.b, m) % U32_RANGE != 0;
    ModuleUsage(w, m);
  }

  ghost predicate ModulesExactUpTo(ws: seq<World>, i: nat)
    requires i < |ws|
  {
    forall j :: 0 <= j <= i ==> ModulesExact(ws[j])
  }

  predicate ModuleSteadyUpTo(ws: seq<World>, events: seq<Event>, i: nat)
    requires i <= |events| && i < |ws|
  {
    forall k :: 0 <= k < i ==> ModuleSteady(ws[k], events[k])
  }

  lemma ModuleStep(w: World, e: Event)
    requires Inv(w) && Legal(w, e) && w.calm && Step(w, e).calm && Tidy(w)
    ensures ModulesExact(Step(w, e)) <==> ModuleSteady(w, e)
    ensures ModuleSteady(w, e) ==> Tidy(Step(w, e))
  {
    StepKeepsInv(w, e);
    TidyStep(w, e);
    if ModuleSteady(w, e) {
      TidyIsExact(Step(w, e));
    } else {
      GapIsNotExact(Step(w, e));
    }
  }

  /** While the total does not wrap, every module's usage is the size of the live blocks asked
      for under its name throughout a run, if and only if the run has no event that fails to
      resize a recorded block, takes an ownerless block out of the table, or releases an owned
      one that the table does not hold, empty blocks and times without modules apart. */
  lemma {:induction false} ModulesExactly(ws: seq<World>, events: seq<Event>, i: nat)
    requires Run(ws, events) && i < |ws| && ws[i].calm
    ensures ModulesExactUpTo(ws, i) <==> ModuleSteadyUpTo(ws, events, i)
    ensures ModuleSteadyUpTo(ws, events, i) ==> Tidy(ws[i])
    decreases i
  {
    if i == 0 {
      RunKeepsInv(ws, events, 0);
    } else {
      CalmBefore(ws, events, i - 1, i);
      ModulesExactly(ws, events, i - 1);
      RunKeepsInv(ws, events, i - 1);
      if ModuleSteadyUpTo(ws, events, i - 1) {
        ModuleStep(ws[i - 1], events[i - 1]);
      }
    }
  }

  // ----- runs in which the trace is not exact -----

  const FIRST := Module("first", 10, 10)
  const OWNED := Record(1, 10, 0, true)
  const NAMELESS := Record(2, 4, 0, false)

  function Holding(cap: nat, recs: seq<Record>, usage: nat, peak: nat, modules: seq<Module>): Trace {
    Trace(Config(cap, true), recs, usage, peak, modules, false)
  }

  lemma FirstAllocates(cap: nat)
    requires cap > 0
    ensures AddTrace(Holding(cap, [], 0, 0, []), Some("first"), 1, 10)
            == (Holding(cap, [OWNED], 10, 10, [FIRST]), OWNED)
  {
    assert Charge([] + [Module("first", 0, 0)], 0, 10) == [FIRST] && [] + [OWNED] == [OWNED];
  }

  lemma NobodyAllocates()
    ensures AddTrace(Holding(4, [OWNED], 10, 10, [FIRST]), None, 2, 4)
            == (Holding(4, [OWNED, NAMELESS], 14, 14, [FIRST]), NAMELESS)
  {
    assert [OWNED] + [NAMELESS] == [OWNED, NAMELESS];
  }

  lemma NamelessIsReleased()
    ensures Find([OWNED, NAMELESS], 2) == 1
    ensures RemoveTrace(Holding(4, [OWNED, NAMELESS], 14, 14, [FIRST]), 2)
            == Holding(4, [OWNED], 10, 14, [FIRST.(usage := 6)])
  {
    assert SwapRemove([OWNED, NAMELESS], 1) == [OWNED];
    assert [FIRST][0 := FIRST.(usage := 6)] == [FIRST.(usage := 6)];
  }

  lemma OneBlock(live: map<int, Block>, a: int, block: Block, which: Option<string>)
    requires live == map[a := block]
    ensures LiveSum(live, which) == Weigh(block, which)
  {
    LiveSumWithout(live, a, which);
    assert forall k :: k !in (live - {a}).Keys;
  }

  /** Releasing four bytes that nobody owned takes them from the usage of the first module,
      although that module still holds its ten. */
  lemma FirstModuleLoses() returns (ws: seq<World>, events: seq<Event>)
    ensures Run(ws, events) && var w := ws[|events|];
            w.t.modules == [FIRST.(usage := 6)] && LiveSum(w.live, Some("first")) == 10
  {
    events := [Alloc(Some("first"), 1, 10), Alloc(None, 2, 4), Release(2)];
    var w0 := Begin(Config(4, true));
    FirstAllocates(4);
    var w1 := Step(w0, events[0]);
    NobodyAllocates();
    var w2 := Step(w1, events[1]);
    NamelessIsReleased();
    var w3 := Step(w2, events[2]);
    ws := [w0, w1, w2, w3];
    OneBlock(w3.live, 1, Block(10, Some("first")), Some("first"));
  }

  /** A resize that fails takes the record of the block, and its ten bytes, although the
      block lives on. */
  lemma FailedResizeLoses() returns (ws: seq<World>, events: seq<Event>)
    ensures Run(ws, events) && var w := ws[|events|];
            w.t.recs == [] && w.t.usage == 0 && w.live == map[1 := Block(10, Some("first"))]
            && LiveSum(w.live, None) == 10
  {
    events := [Alloc(Some("first"), 1, 10), Resize(Some("first"), Some(1), None, 20)];
    var w0 := Begin(Config(4, true));
    FirstAllocates(4);
    var w1 := Step(w0, events[0]);
    assert Find([OWNED], 1) == 0 && SwapRemove([OWNED], 0) == [];
    var w2 := Step(w1, events[1]);
    ws := [w0, w1, w2];
    OneBlock(w2.live, 1, Block(10, Some("first")), None);
  }

  /** With a table of one record, the four bytes of a second block are counted and never
      subtracted. */
  lemma FullTableLeaks() returns (ws: seq<World>, events: seq<Event>)
    ensures Run(ws, events) && var w := ws[|events|];
            w.t.usage == 14 && w.live == map[1 := Block(10, Some("first"))] && LiveSum(w.live, None) == 10
  {
    events := [Alloc(Some("first"), 1, 10), Alloc(None, 2, 4), Release(2)];
    var w0 := Begin(Config(1, true));
    FirstAllocates(1);
    var w1 := Step(w0, events[0]);
    assert w1.t == Holding(1, [OWNED], 10, 10, [FIRST]);
    var w2 := Step(w1, events[1]);
    assert w2.t.recs == [OWNED] && w2.t.usage == 14 && w2.b.counted == [NAMELESS];
    assert Find([OWNED], 2) == 1 && Find([NAMELESS], 2) == 0;
    var w3 := Step(w2, events[2]);
    ws := [w0, w1, w2, w3];
    OneBlock(w3.live, 1, Block(10, Some("first")), None);
  }
}
