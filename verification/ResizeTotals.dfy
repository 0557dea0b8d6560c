/** When the running totals are exact although resizes are two steps. */
module ResizeTotals {
  import opened Bytes
  import opened ResizeExact
  import opened ResizeSteps
  import opened TraceExact
  import opened TraceRuns
  import opened TraceTable
  import opened Wrappers

  function SizeOf(o: Option<Record>): nat {
    if o.Some? then o.value.size else 0
  }

  /** What a removal of this record takes from module m. */
  function ShareOf(o: Option<Record>, m: nat): nat {
    if o.Some? && o.value.id == m then o.value.size else 0
  }

  lemma FoundFits(f: Fine, e: Act)
    requires TraceOk(f.t) && (e.Ended? ==> e.k < |f.calls|)
    ensures SizeOf(Found(f, e)) < U32_RANGE
  {
  }

  lemma {:induction false} PartOfSum(known: seq<Entry>, which: Option<string>)
    ensures SumOf(known, which) <= SumOf(known, None)
  {
    if known != [] {
      PartOfSum(known[1..], which);
    }
  }

  /** A total follows its sum exactly when as much is taken out of it as goes. */
  lemma Follows(sum: nat, found: nat, goes: nat, comes: nat)
    requires goes <= sum < U32_RANGE && sum - goes + comes < U32_RANGE && found < U32_RANGE
    ensures (Minus(sum, found) + comes) % U32_RANGE == sum - goes + comes <==> found == goes
  {
    assert (Minus(sum, found) + comes) % U32_RANGE == (sum - found + comes) % U32_RANGE;
  }

  // ----- the total over all blocks -----

  predicate TotalExact(f: Fine) {
    f.t.usage == SumOf(f.known, None)
  }

  /** The record that is removed has the size of the block that goes; none stands for 0. */
  predicate RightSize(f: Fine, e: Act)
    requires e.Ended? ==> e.k < |f.calls|
  {
    SizeOf(Found(f, e)) == WeighOne(Goes(f, e), None)
  }

  lemma TotalMoves(f: Fine, e: Act)
    requires Allowed(f, e) && f.t.usage < U32_RANGE
    ensures Take(f, e).t.usage == (Minus(f.t.usage, SizeOf(Found(f, e))) + WeighOne(Comes(f, e), None)) % U32_RANGE
  {
    assert Emptied(f, e).usage == Minus(f.t.usage, SizeOf(Found(f, e)));
    AdditionCounts(Emptied(f, e), Comes(f, e));
  }

  lemma AdditionCounts(u: Trace, c: Option<Entry>)
    requires u.usage < U32_RANGE
    ensures Added(u, c).usage == (u.usage + WeighOne(c, None)) % U32_RANGE
  {
  }

  lemma TotalStep(f: Fine, e: Act)
    requires Sound(f) && Allowed(f, e) && TotalExact(f) && Fits32(f) && Fits32(Take(f, e))
    ensures TotalExact(Take(f, e)) <==> RightSize(f, e)
  {
    SumStep(f, e, None);
    FoundFits(f, e);
    TotalMoves(f, e);
    Follows(f.t.usage, SizeOf(Found(f, e)), WeighOne(Goes(f, e), None), WeighOne(Comes(f, e), None));
  }

  predicate TotalExactUpTo(fs: seq<Fine>, i: nat)
    requires i < |fs|
  {
    forall j :: 0 <= j <= i ==> TotalExact(fs[j])
  }

  predicate RightSizeAt(fs: seq<Fine>, es: seq<Act>, k: nat)
    requires k < |es| && k + 1 < |fs|
  {
    Allowed(fs[k], es[k]) && RightSize(fs[k], es[k])
  }

  /** Conservation, over all interleavings with two-step resizes: the total is the size of the
      blocks that the trace is to hold throughout a run, if and only if every removal has found
      a record of the size of the block that went, and none but an empty one when none went. */
  lemma {:induction false} TotalExactly(fs: seq<Fine>, es: seq<Act>, i: nat)
    requires FineRun(fs, es) && i < |fs| && FitsUpTo(fs, i)
    ensures TotalExactUpTo(fs, i) <==> forall k :: 0 <= k < i ==> RightSizeAt(fs, es, k)
    decreases i
  {
    if i > 0 {
      TotalExactly(fs, es, i - 1);
      RunIsSound(fs, es, i - 1);
      assert StepAt(fs, es, i - 1);
      assert RightSizeAt(fs, es, i - 1) <==> RightSize(fs[i - 1], es[i - 1]);
      if TotalExactUpTo(fs, i - 1) {
        TotalStep(fs[i - 1], es[i - 1]);
      }
    }
  }

  // ----- the totals of the modules -----

  predicate ModuleExact(f: Fine, m: nat)
    requires m < |f.t.modules|
  {
    f.t.modules[m].usage == SumOf(f.known, Some(f.t.modules[m].name))
  }

  predicate AllModulesExact(f: Fine) {
    forall m :: 0 <= m < |f.t.modules| ==> ModuleExact(f, m)
  }

  /** The record that is removed is charged as much to every module as the block that goes. */
  predicate RightShares(f: Fine, e: Act)
    requires e.Ended? ==> e.k < |f.calls|
  {
    forall m :: 0 <= m < |f.t.modules| ==> RightShare(f, e, m)
  }

  predicate RightShare(f: Fine, e: Act, m: nat)
    requires (e.Ended? ==> e.k < |f.calls|) && m < |f.t.modules|
  {
    ShareOf(Found(f, e), m) == WeighOne(Goes(f, e), Some(f.t.modules[m].name))
  }

  lemma RemovalMoves(f: Fine, e: Act, m: nat)
    requires TraceOk(f.t) && Allowed(f, e) && m < |f.t.modules| && f.t.modules[m].usage < U32_RANGE
    ensures m < |Emptied(f, e).modules| == |f.t.modules|
    ensures Emptied(f, e).modules[m].usage == Minus(f.t.modules[m].usage, ShareOf(Found(f, e), m))
  {
  }

  lemma AdditionMoves(u: Trace, c: Option<Entry>, m: nat)
    requires NamesDistinct(u.modules) && (!u.cfg.byModule ==> u.modules == [])
    requires m < |u.modules| && u.modules[m].usage < U32_RANGE
    ensures m < |Added(u, c).modules| && Added(u, c).modules[m].name == u.modules[m].name
    ensures Added(u, c).modules[m].usage == (u.modules[m].usage + WeighOne(c, Some(u.modules[m].name))) % U32_RANGE
  {
    if c.Some? && c.value.block.name.Some? && u.modules[m].name == c.value.block.name.value {
      assert FindModule(u.modules, u.modules[m].name) == m;
    }
  }

  /** What an event does to the usage of a module that is there. */
  lemma UsageMoves(f: Fine, e: Act, m: nat)
    requires Sound(f) && Allowed(f, e) && m < |f.t.modules| && f.t.modules[m].usage < U32_RANGE
    ensures var name := f.t.modules[m].name;
            m < |Take(f, e).t.modules| && Take(f, e).t.modules[m].name == name
            && Take(f, e).t.modules[m].usage ==
               (Minus(f.t.modules[m].usage, ShareOf(Found(f, e), m)) + WeighOne(Comes(f, e), Some(name))) % U32_RANGE
  {
    RemovalMoves(f, e, m);
    TakeNames(f, e);
    AdditionMoves(Emptied(f, e), Comes(f, e), m);
  }

  lemma OldModuleStep(f: Fine, e: Act, m: nat)
    requires Sound(f) && Allowed(f, e) && m < |f.t.modules| && ModuleExact(f, m) && Fits32(f) && Fits32(Take(f, e))
    ensures m < |Take(f, e).t.modules| && (ModuleExact(Take(f, e), m) <==> RightShare(f, e, m))
  {
    var name := Some(f.t.modules[m].name);
    PartOfSum(f.known, name);
    PartOfSum(Take(f, e).known, name);
    SumStep(f, e, name);
    FoundFits(f, e);
    UsageMoves(f, e, m);
    Follows(SumOf(f.known, name), ShareOf(Found(f, e), m), WeighOne(Goes(f, e), name), WeighOne(Comes(f, e), name));
  }

  lemma {:induction false} NothingOfName(t: Trace, known: seq<Entry>, name: string)
    requires t.cfg.byModule && |t.modules| < MAX_MODULES && FindModule(t.modules, name) == |t.modules|
    requires forall k :: 0 <= k < |known| ==> NameSettled(t, known[k])
    ensures SumOf(known, Some(name)) == 0
  {
    if known != [] {
      NothingOfName(t, known[1..], name);
    }
  }

  lemma AdditionCreates(u: Trace, c: Option<Entry>)
    requires |Added(u, c).modules| > |u.modules|
    ensures var v := Added(u, c);
            && |v.modules| == |u.modules| + 1 && u.cfg.byModule && |u.modules| < MAX_MODULES && c.Some?
            && c.value.block.name == Some(v.modules[|u.modules|].name)
            && FindModule(u.modules, c.value.block.name.value) == |u.modules|
            && v.modules[|u.modules|].usage == WeighOne(c, c.value.block.name) % U32_RANGE
  {
  }

  /** A new module begins with its first block. */
  lemma NewModuleStep(f: Fine, e: Act, m: nat)
    requires Sound(f) && Allowed(f, e) && Fits32(Take(f, e)) && |f.t.modules| <= m < |Take(f, e).t.modules|
    ensures ModuleExact(Take(f, e), m)
  {
    var g, u := Take(f, e), Emptied(f, e);
    TakeNames(f, e);
    AdditionCreates(u, Comes(f, e));
    var name := Some(g.t.modules[m].name);
    FindSame(f.t.modules, u.modules, name.value);
    NothingOfName(f.t, f.known, name.value);
    SumStep(f, e, name);
    PartOfSum(g.known, name);
  }

  lemma ModulesStep(f: Fine, e: Act)
    requires Sound(f) && Allowed(f, e) && AllModulesExact(f) && Fits32(f) && Fits32(Take(f, e))
    ensures AllModulesExact(Take(f, e)) <==> RightShares(f, e)
  {
    var g := Take(f, e);
    TakeNames(f, e);
    forall m | 0 <= m < |g.t.modules|
      ensures if m < |f.t.modules| then ModuleExact(g, m) <==> RightShare(f, e, m) else ModuleExact(g, m)
    {
      if m < |f.t.modules| {
        assert ModuleExact(f, m);
        OldModuleStep(f, e, m);
      } else {
        NewModuleStep(f, e, m);
      }
    }
  }

  predicate ModulesExactTo(fs: seq<Fine>, i: nat)
    requires i < |fs|
  {
    forall j :: 0 <= j <= i ==> AllModulesExact(fs[j])
  }

  predicate RightSharesAt(fs: seq<Fine>, es: seq<Act>, k: nat)
    requires k < |es| && k + 1 < |fs|
  {
    Allowed(fs[k], es[k]) && RightShares(fs[k], es[k])
  }

  /** Over all interleavings with two-step resizes: every module's usage is the size of the
      blocks that the trace is to hold under its name throughout a run, if and only if every
      removal has taken from each module what the block that went had there. */
  lemma {:induction false} SharesExactly(fs: seq<Fine>, es: seq<Act>, i: nat)
    requires FineRun(fs, es) && i < |fs| && FitsUpTo(fs, i)
    ensures ModulesExactTo(fs, i) <==> forall k :: 0 <= k < i ==> RightSharesAt(fs, es, k)
    decreases i
  {
    if i > 0 {
      SharesExactly(fs, es, i - 1);
      RunIsSound(fs, es, i - 1);
      assert StepAt(fs, es, i - 1);
      assert RightSharesAt(fs, es, i - 1) <==> RightShares(fs[i - 1], es[i - 1]);
      if ModulesExactTo(fs, i - 1) {
        ModulesStep(fs[i - 1], es[i - 1]);
      }
    }
  }
}
