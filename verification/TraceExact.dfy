/** When the allocation trace is exact: the table, the total and the module totals against the
    map of live blocks, each with the events that make them differ. */
module TraceExact {
  import opened Bytes
  import opened TraceRuns
  import opened TraceTable
  import opened Wrappers

  // ----- sums over the live blocks -----

  /** What a block weighs in the sum over all blocks, or over those of one name. */
  function Weigh(block: Block, which: Option<string>): nat {
    if which.None? || block.name == which then block.size else 0
  }

  ghost function Pick(keys: set<int>): (a: int)
    requires exists k :: k in keys
    ensures a in keys
  {
    var a :| a in keys;
    a
  }

  /** The size of the live blocks, all of them or those of one name. */
  ghost function LiveSum(live: map<int, Block>, which: Option<string>): nat
    decreases |live|
  {
    if exists k :: k in live.Keys then
      var a := Pick(live.Keys);
      Weigh(live[a], which) + LiveSum(live - {a}, which)
    else 0
  }

  /** The order of summation does not matter. */
  lemma {:induction false} LiveSumWithout(live: map<int, Block>, a: int, which: Option<string>)
    requires a in live
    ensures LiveSum(live, which) == Weigh(live[a], which) + LiveSum(live - {a}, which)
    decreases |live|
  {
    var x := Pick(live.Keys);
    if x != a {
      LiveSumWithout(live - {x}, a, which);
      LiveSumWithout(live - {a}, x, which);
      assert live - {x} - {a} == live - {a} - {x};
    }
  }

  function Addresses(recs: seq<Record>): set<int> {
    set i | 0 <= i < |recs| :: recs[i].addr
  }

  predicate AllLive(recs: seq<Record>, live: map<int, Block>) {
    forall i :: 0 <= i < |recs| ==> recs[i].addr in live
  }

  function Weights(recs: seq<Record>, live: map<int, Block>, which: Option<string>): nat
    requires AllLive(recs, live)
  {
    if recs == [] then 0 else Weigh(live[recs[0].addr], which) + Weights(recs[1..], live, which)
  }

  lemma {:induction false} WeightsFrame(recs: seq<Record>, live: map<int, Block>, a: int, which: Option<string>)
    requires AllLive(recs, live) && forall i :: 0 <= i < |recs| ==> recs[i].addr != a
    ensures AllLive(recs, live - {a}) && Weights(recs, live - {a}, which) == Weights(recs, live, which)
  {
    if recs != [] {
      WeightsFrame(recs[1..], live, a, which);
    }
  }

  lemma {:induction false} WeightsAppend(a: seq<Record>, b: seq<Record>, live: map<int, Block>, which: Option<string>)
    requires AllLive(a, live) && AllLive(b, live)
    ensures AllLive(a + b, live) && Weights(a + b, live, which) == Weights(a, live, which) + Weights(b, live, which)
  {
    if a == [] {
      assert a + b == b;
    } else {
      WeightsAppend(a[1..], b, live, which);
      assert (a + b)[1..] == a[1..] + b;
    }
  }

  /** Records that name every live block once make up the sum over the blocks. */
  lemma {:induction false} SumOverRecords(live: map<int, Block>, recs: seq<Record>, which: Option<string>)
    requires Distinct(recs) && live.Keys == Addresses(recs)
    ensures AllLive(recs, live) && LiveSum(live, which) == Weights(recs, live, which)
    decreases |recs|
  {
    if recs == [] {
      assert live.Keys == {};
    } else {
      var a := recs[0].addr;
      assert forall i :: 0 <= i < |recs| ==> recs[i].addr in Addresses(recs);
      assert (live - {a}).Keys == Addresses(recs[1..]) by {
        assert forall i :: 0 <= i < |recs| - 1 ==> recs[1..][i] == recs[i + 1];
        assert forall i :: 1 <= i < |recs| ==> recs[i] == recs[1..][i - 1];
      }
      SumOverRecords(live - {a}, recs[1..], which);
      LiveSumWithout(live, a, which);
      WeightsFrame(recs[1..], live, a, which);
    }
  }

  // ----- the records that the books and the table hold -----

  lemma LookupOwn(recs: seq<Record>, i: nat)
    requires Distinct(recs) && i < |recs|
    ensures Lookup(recs, recs[i].addr) == Some(recs[i])
  {
    var k := Find(recs, recs[i].addr);
    assert k <= i;
  }

  predicate ListHolds(t: Trace, live: map<int, Block>, recs: seq<Record>) {
    forall i :: 0 <= i < |recs| ==> recs[i].addr in live && Holds(t.cfg, t.modules, live[recs[i].addr], recs[i])
  }

  lemma ListsHold(t: Trace, b: Books, live: map<int, Block>)
    requires Places(t, b, live)
    ensures ListHolds(t, live, t.recs) && ListHolds(t, live, b.counted) && ListHolds(t, live, b.orphans)
  {
    forall i | 0 <= i < |t.recs|
      ensures t.recs[i].addr in live && Holds(t.cfg, t.modules, live[t.recs[i].addr], t.recs[i])
    {
      LookupOwn(t.recs, i);
      assert At(t, b, live, t.recs[i].addr);
    }
    forall i | 0 <= i < |b.counted|
      ensures b.counted[i].addr in live && Holds(t.cfg, t.modules, live[b.counted[i].addr], b.counted[i])
    {
      LookupOwn(b.counted, i);
      assert At(t, b, live, b.counted[i].addr);
    }
    forall i | 0 <= i < |b.orphans|
      ensures b.orphans[i].addr in live && Holds(t.cfg, t.modules, live[b.orphans[i].addr], b.orphans[i])
    {
      LookupOwn(b.orphans, i);
      assert At(t, b, live, b.orphans[i].addr);
    }
  }

  function AllRecords(t: Trace, b: Books): seq<Record> {
    t.recs + (b.counted + b.orphans)
  }

  lemma AllDistinct(t: Trace, b: Books, live: map<int, Block>)
    requires Places(t, b, live)
    ensures Distinct(AllRecords(t, b))
  {
    forall i | 0 <= i < |t.recs|
      ensures Lookup(b.counted, t.recs[i].addr).None? && Lookup(b.orphans, t.recs[i].addr).None?
    {
      LookupOwn(t.recs, i);
      assert At(t, b, live, t.recs[i].addr);
    }
    forall i | 0 <= i < |b.counted| ensures Lookup(b.orphans, b.counted[i].addr).None? {
      LookupOwn(b.counted, i);
      assert At(t, b, live, b.counted[i].addr);
    }
    DistinctJoin(b.counted, b.orphans);
    forall i | 0 <= i < |t.recs| ensures Lookup(b.counted + b.orphans, t.recs[i].addr).None? {
      LookupJoin(b.counted, b.orphans, t.recs[i].addr);
    }
    DistinctJoin(t.recs, b.counted + b.orphans);
  }

  lemma LookupJoin(a: seq<Record>, b: seq<Record>, addr: int)
    requires Lookup(a, addr).None? && Lookup(b, addr).None?
    ensures Lookup(a + b, addr).None?
  {
    forall k | 0 <= k < |a + b| ensures (a + b)[k].addr != addr {
      if k < |a| {
        assert a[k].addr != addr;
      } else {
        assert b[k - |a|].addr != addr;
      }
    }
  }

  lemma DistinctJoin(a: seq<Record>, b: seq<Record>)
    requires Distinct(a) && Distinct(b) && forall i :: 0 <= i < |a| ==> Lookup(b, a[i].addr).None?
    ensures Distinct(a + b)
  {
    forall i, j | 0 <= i < j < |a + b| ensures (a + b)[i].addr != (a + b)[j].addr {
      if i < |a| <= j {
        assert (a + b)[j] == b[j - |a|];
      }
    }
  }

  lemma AllAddresses(t: Trace, b: Books, live: map<int, Block>)
    requires Places(t, b, live)
    ensures live.Keys == Addresses(AllRecords(t, b))
  {
    var all := AllRecords(t, b);
    ListsHold(t, b, live);
    forall a | a in live ensures a in Addresses(all) {
      assert At(t, b, live, a);
      var i, j, k := Find(t.recs, a), Find(b.counted, a), Find(b.orphans, a);
      if i < |t.recs| {
        assert all[i].addr == a;
      } else if j < |b.counted| {
        assert all[|t.recs| + j].addr == a;
      } else {
        assert all[|t.recs| + |b.counted| + k].addr == a;
      }
    }
    forall a | a in Addresses(all) ensures a in live {
      var i :| 0 <= i < |all| && all[i].addr == a;
    }
  }

  /** In a list whose records fit their blocks, the weights are the sizes and the shares. */
  lemma {:induction false} WeightsAreSizes(t: Trace, live: map<int, Block>, recs: seq<Record>)
    requires ListHolds(t, live, recs)
    ensures AllLive(recs, live) && Weights(recs, live, None) == Sum(recs)
  {
    if recs != [] {
      WeightsAreSizes(t, live, recs[1..]);
    }
  }

  lemma {:induction false} WeightsAreShares(t: Trace, live: map<int, Block>, recs: seq<Record>, m: nat)
    requires ListHolds(t, live, recs) && m < |t.modules| && NamesDistinct(t.modules) && t.cfg.byModule
    ensures AllLive(recs, live) && Weights(recs, live, Some(t.modules[m].name)) == Shares(recs, m)
  {
    if recs != [] {
      WeightsAreShares(t, live, recs[1..], m);
      assert Holds(t.cfg, t.modules, live[recs[0].addr], recs[0]);
    }
  }

  /** The sums over the live blocks, in terms of the table and the books. */
  lemma LiveTotals(t: Trace, b: Books, live: map<int, Block>)
    requires Places(t, b, live)
    ensures LiveSum(live, None) == Sum(t.recs) + Sum(b.counted) + Sum(b.orphans)
  {
    ListsHold(t, b, live);
    AllDistinct(t, b, live);
    AllAddresses(t, b, live);
    SumOverRecords(live, AllRecords(t, b), None);
    WeightsAreSizes(t, live, t.recs);
    WeightsAreSizes(t, live, b.counted);
    WeightsAreSizes(t, live, b.orphans);
    WeightsAppend(b.counted, b.orphans, live, None);
    WeightsAppend(t.recs, b.counted + b.orphans, live, None);
  }

  lemma LiveShares(t: Trace, b: Books, live: map<int, Block>, m: nat)
    requires Places(t, b, live) && m < |t.modules| && t.cfg.byModule
    ensures LiveSum(live, Some(t.modules[m].name)) == Shares(t.recs, m) + Shares(b.counted, m) + Shares(b.orphans, m)
  {
    var which := Some(t.modules[m].name);
    ListsHold(t, b, live);
    AllDistinct(t, b, live);
    AllAddresses(t, b, live);
    SumOverRecords(live, AllRecords(t, b), which);
    WeightsAreShares(t, live, t.recs, m);
    WeightsAreShares(t, live, b.counted, m);
    WeightsAreShares(t, live, b.orphans, m);
    WeightsAppend(b.counted, b.orphans, live, which);
    WeightsAppend(t.recs, b.counted + b.orphans, live, which);
  }

  // ----- the table -----

  /** The table says of this address what is true: nothing, or the size and the module. */
  predicate TableAt(w: World, a: int) {
    match Lookup(w.t.recs, a)
    case None => a !in w.live
    case Some(r) => a in w.live && Holds(w.t.cfg, w.t.modules, w.live[a], r)
  }

  ghost predicate TableExact(w: World) {
    forall a :: TableAt(w, a)
  }

  /** An event finds a slot when it adds a record, and does not fail to resize. */
  predicate Harmless(w: World, e: Event) {
    match e
    case Alloc(_, _, _) => HasSlot(w.t)
    case Release(_) => true
    case Resize(_, old', new', size) =>
      if new'.Some? then HasSlot(Vacated(w, old')) else old'.None? || size == 0
  }

  predicate NothingOutside(b: Books) {
    b.counted == [] && b.orphans == []
  }

  lemma ExactMeansNothingOutside(w: World)
    requires Inv(w)
    ensures TableExact(w) <==> NothingOutside(w.b)
  {
    if NothingOutside(w.b) {
      forall a ensures TableAt(w, a) {
        assert At(w.t, w.b, w.live, a);
      }
    } else {
      var r := if w.b.counted != [] then w.b.counted[0] else w.b.orphans[0];
      assert At(w.t, w.b, w.live, r.addr);
      assert !TableAt(w, r.addr);
    }
  }

  lemma HarmlessStep(w: World, e: Event)
    requires Inv(w) && Legal(w, e) && NothingOutside(w.b)
    ensures Harmless(w, e) <==> NothingOutside(Step(w, e).b)
  {
    if e.Resize? && e.old'.Some? {
      assert At(w.t, w.b, w.live, e.old'.value);
    }
  }

  /** The table is the map of live blocks to sizes and modules throughout a run, if and only
      if every event of the run found a slot for its record and no resize failed. */
  lemma {:induction false} TableExactly(ws: seq<World>, events: seq<Event>, i: nat)
    requires Run(ws, events) && i < |ws|
    ensures (forall j :: 0 <= j <= i ==> TableExact(ws[j])) <==> (forall k :: 0 <= k < i ==> Harmless(ws[k], events[k]))
    decreases i
  {
    RunKeepsInv(ws, events, i);
    ExactMeansNothingOutside(ws[i]);
    if i > 0 {
      TableExactly(ws, events, i - 1);
      RunKeepsInv(ws, events, i - 1);
      ExactMeansNothingOutside(ws[i - 1]);
      if TableExact(ws[i - 1]) {
        HarmlessStep(ws[i - 1], events[i - 1]);
      }
    }
  }

  // ----- the total -----

  /** The address that an event takes out of the trace, if any. */
  function Leaving(e: Event): Option<int> {
    match e
    case Alloc(_, _, _) => None
    case Release(addr) => Some(addr)
    case Resize(_, old', _, _) => old'
  }

  predicate Fails(e: Event) {
    e.Resize? && e.new'.None? && e.size != 0
  }

  /** An event neither fails to resize a recorded block nor releases one without a record,
      other than an empty one. */
  predicate Steady(w: World, e: Event) {
    var a := Leaving(e);
    a.None? || a.value !in w.live || w.live[a.value].size == 0
    || (if Fails(e) then Lookup(w.t.recs, a.value).None? else Lookup(w.t.recs, a.value).Some?)
  }

  lemma {:induction false} MemberSum(recs: seq<Record>, i: nat)
    requires i < |recs|
    ensures recs[i].size <= Sum(recs)
  {
    if i > 0 {
      MemberSum(recs[1..], i - 1);
    }
  }

  predicate NoDebt(b: Books) {
    Sum(b.leaked) == 0 && Sum(b.orphans) == 0
  }

  lemma ReleaseDebt(w: World, addr: int)
    requires Inv(w) && NoDebt(w.b)
    ensures var c := ReleaseStep(w.t, w.b, addr).1;
            var steady := addr !in w.live || w.live[addr].size == 0 || Lookup(w.t.recs, addr).Some?;
            Sum(c.orphans) == 0 && (steady <==> Sum(c.leaked) == 0)
  {
    assert At(w.t, w.b, w.live, addr);
    var j, k := Find(w.b.counted, addr), Find(w.b.orphans, addr);
    if j < |w.b.counted| {
      SumPush(w.b.leaked, w.b.counted[j], 0);
    } else if k < |w.b.orphans| {
      SumsWithout(w.b.orphans, k, 0);
      MemberSum(w.b.orphans, k);
    }
  }

  lemma FailedDebt(w: World, addr: int)
    requires Inv(w) && NoDebt(w.b)
    ensures var c := FailedStep(w.t, w.b, addr).1;
            var steady := addr !in w.live || w.live[addr].size == 0 || Lookup(w.t.recs, addr).None?;
            Sum(c.leaked) == 0 && (steady <==> Sum(c.orphans) == 0)
  {
    assert At(w.t, w.b, w.live, addr);
    var i := Find(w.t.recs, addr);
    if i < |w.t.recs| {
      SumPush(w.b.orphans, w.t.recs[i], 0);
    }
  }

  lemma SteadyStep(w: World, e: Event)
    requires Inv(w) && Legal(w, e) && NoDebt(w.b)
    ensures Steady(w, e) ==> NoDebt(Step(w, e).b)
    ensures !Steady(w, e) ==> Sum(Step(w, e).b.leaked) != Sum(Step(w, e).b.orphans)
  {
    if Leaving(e).Some? {
      if Fails(e) {
        FailedDebt(w, Leaving(e).value);
      } else {
        ReleaseDebt(w, Leaving(e).value);
      }
    }
  }

  ghost predicate UsageExact(w: World) {
    w.t.usage == LiveSum(w.live, None)
  }

  lemma UsageMeansNoDebt(w: World)
    requires Inv(w) && w.calm
    ensures UsageExact(w) <==> Sum(w.b.leaked) == Sum(w.b.orphans)
  {
    LiveTotals(w.t, w.b, w.live);
  }

  lemma {:induction false} CalmBefore(ws: seq<World>, events: seq<Event>, j: nat, i: nat)
    requires Run(ws, events) && j <= i < |ws| && ws[i].calm
    ensures ws[j].calm
    decreases i
  {
    if j < i {
      CalmBefore(ws, events, j, i - 1);
    }
  }

  lemma UsageStep(w: World, e: Event)
    requires Inv(w) && Legal(w, e) && w.calm && Step(w, e).calm && NoDebt(w.b)
    ensures UsageExact(w) && (UsageExact(Step(w, e)) <==> Steady(w, e)) && (Steady(w, e) ==> NoDebt(Step(w, e).b))
  {
    StepKeepsInv(w, e);
    UsageMeansNoDebt(w);
    UsageMeansNoDebt(Step(w, e));
    SteadyStep(w, e);
  }

  ghost predicate UsageExactUpTo(ws: seq<World>, i: nat)
    requires i < |ws|
  {
    forall j :: 0 <= j <= i ==> UsageExact(ws[j])
  }

  predicate SteadyUpTo(ws: seq<World>, events: seq<Event>, i: nat)
    requires i <= |events| && i < |ws|
  {
    forall k :: 0 <= k < i ==> Steady(ws[k], events[k])
  }

  /** Conservation.  While the 32-bit total does not wrap, mem_usage is the size of all live
      blocks throughout a run, if and only if no event of the run fails to resize a recorded
      block or releases an unrecorded one, empty blocks apart. */
  lemma {:induction false} UsageExactly(ws: seq<World>, events: seq<Event>, i: nat)
    requires Run(ws, events) && i < |ws| && ws[i].calm
    ensures UsageExactUpTo(ws, i) <==> SteadyUpTo(ws, events, i)
    ensures SteadyUpTo(ws, events, i) ==> NoDebt(ws[i].b)
    decreases i
  {
    if i == 0 {
      RunKeepsInv(ws, events, 0);
      UsageMeansNoDebt(ws[0]);
    } else {
      CalmBefore(ws, events, i - 1, i);
      UsageExactly(ws, events, i - 1);
      RunKeepsInv(ws, events, i - 1);
      if SteadyUpTo(ws, events, i - 1) {
        UsageStep(ws[i - 1], events[i - 1]);
      }
    }
  }

  /** The peak is the largest total that the run has had. */
  lemma {:induction false} PeakIsMaximum(ws: seq<World>, events: seq<Event>, i: nat)
    requires Run(ws, events) && i < |ws| && ws[i].calm
    ensures ws[i].t.peak == ws[i].top
    ensures forall j :: 0 <= j <= i ==> ws[j].t.usage <= ws[i].top
    ensures exists j :: 0 <= j <= i && ws[j].t.usage == ws[i].top
    decreases i
  {
    RunKeepsInv(ws, events, i);
    if i > 0 {
      CalmBefore(ws, events, i - 1, i);
      PeakIsMaximum(ws, events, i - 1);
      assert ws[i].top == Max(ws[i - 1].top, ws[i].t.usage);
    }
  }
}
