/** The peak of each module in the allocation trace. */
module TracePeaks {
  import opened TraceRuns
  import opened TraceTable
  import opened Wrappers

  /** The event charges the module of that name. */
  predicate Charges(e: Event, name: string) {
    match e
    case Alloc(n, _, _) => n == Some(name)
    case Release(_) => false
    case Resize(n, _, new', _) => new'.Some? && n == Some(name)
  }

  lemma ChargedPeak(t: Trace, name: Option<string>, addr: int, size: nat, m: nat)
    requires NamesDistinct(t.modules) && (!t.cfg.byModule ==> t.modules == [])
    ensures var u := AddTrace(t, name, addr, size).0;
            m < |u.modules| ==>
              var before := if m < |t.modules| then t.modules[m].peak else 0;
              && (m >= |t.modules| ==> name == Some(u.modules[m].name))
              && u.modules[m].peak ==
                 if name == Some(u.modules[m].name) then Max(before, u.modules[m].usage) else before
  {
    if name.Some? && m < |t.modules| && t.modules[m].name == name.value {
      assert FindModule(t.modules, name.value) == m;
    }
  }

  /** The trace from which an event has removed what leaves it. */
  function Emptied(w: World, e: Event): Trace {
    match e
    case Alloc(_, _, _) => w.t
    case Release(addr) => RemoveTrace(w.t, addr)
    case Resize(_, old', _, _) => if old'.Some? then RemoveTrace(w.t, old'.value) else w.t
  }

  lemma StepTrace(w: World, e: Event)
    ensures Step(w, e).t == match e
                            case Alloc(name, addr, size) => AddTrace(Emptied(w, e), name, addr, size).0
                            case Release(_) => Emptied(w, e)
                            case Resize(name, _, new', size) =>
                              if new'.Some? then AddTrace(Emptied(w, e), name, new'.value, size).0 else Emptied(w, e)
  {
  }

  lemma EmptiedPeaks(w: World, e: Event)
    requires NamesDistinct(w.t.modules)
    ensures var u := Emptied(w, e);
            && |u.modules| == |w.t.modules| && NamesDistinct(u.modules) && u.cfg == w.t.cfg
            && forall m :: 0 <= m < |u.modules| ==>
                 u.modules[m].name == w.t.modules[m].name && u.modules[m].peak == w.t.modules[m].peak
  {
  }

  lemma PeakStep(w: World, e: Event, m: nat)
    requires Inv(w) && m < |Step(w, e).t.modules|
    ensures var v := Step(w, e).t.modules[m]; var before := if m < |w.t.modules| then w.t.modules[m].peak else 0;
            && (m < |w.t.modules| ==> w.t.modules[m].name == v.name) && (m >= |w.t.modules| ==> Charges(e, v.name))
            && v.peak == if Charges(e, v.name) then Max(before, v.usage) else before
  {
    var u := Emptied(w, e);
    StepTrace(w, e);
    EmptiedPeaks(w, e);
    match e
    case Alloc(name, addr, size) =>
      ChargedPeak(u, name, addr, size, m);
      AddTraceNames(u, name, addr, size);
    case Release(addr) =>
    case Resize(name, old', new', size) =>
      if new'.Some? {
        ChargedPeak(u, name, new'.value, size, m);
        AddTraceNames(u, name, new'.value, size);
      }
  }

  lemma ModulesGrow(w: World, e: Event)
    requires Inv(w)
    ensures |Step(w, e).t.modules| >= |w.t.modules|
  {
    var u := Emptied(w, e);
    StepTrace(w, e);
    EmptiedPeaks(w, e);
    match e
    case Alloc(name, addr, size) => AddTraceNames(u, name, addr, size);
    case Release(addr) =>
    case Resize(name, _, new', size) =>
      if new'.Some? {
        AddTraceNames(u, name, new'.value, size);
      }
  }

  predicate ChargedAt(ws: seq<World>, events: seq<Event>, j: nat, m: nat, name: string)
    requires 0 < j <= |events| && j < |ws|
  {
    Charges(events[j - 1], name) && m < |ws[j].t.modules|
  }

  /** `peak` is the largest usage that module m of this name has had right after a charge. */
  ghost predicate IsPeak(ws: seq<World>, events: seq<Event>, i: nat, m: nat, name: string, peak: nat)
    requires i <= |events| && i < |ws|
  {
    && (forall j :: 0 < j <= i && ChargedAt(ws, events, j, m, name) ==> ws[j].t.modules[m].usage <= peak)
    && exists j :: 0 < j <= i && ChargedAt(ws, events, j, m, name) && ws[j].t.modules[m].usage == peak
  }

  lemma PeakGrows(ws: seq<World>, events: seq<Event>, i: nat, m: nat, name: string, before: nat)
    requires 0 < i <= |events| && i < |ws| && m < |ws[i].t.modules| && IsPeak(ws, events, i - 1, m, name, before)
    ensures IsPeak(ws, events, i, m, name,
                   if Charges(events[i - 1], name) then Max(before, ws[i].t.modules[m].usage) else before)
  {
    var k :| 0 < k <= i - 1 && ChargedAt(ws, events, k, m, name) && ws[k].t.modules[m].usage == before;
    assert ChargedAt(ws, events, i, m, name) <==> Charges(events[i - 1], name);
  }

  lemma PeakBegins(ws: seq<World>, events: seq<Event>, i: nat, m: nat, name: string)
    requires 0 < i <= |events| && i < |ws| && m < |ws[i].t.modules| && Charges(events[i - 1], name)
    requires forall j :: 0 <= j < i ==> |ws[j].t.modules| <= m
    ensures IsPeak(ws, events, i, m, name, ws[i].t.modules[m].usage)
  {
    assert ChargedAt(ws, events, i, m, name);
  }

  /** A module's peak is the largest usage that it has had right after it was charged. */
  lemma {:induction false} ModulePeakIsMaximum(ws: seq<World>, events: seq<Event>, i: nat, m: nat)
    requires Run(ws, events) && i < |ws| && m < |ws[i].t.modules|
    ensures IsPeak(ws, events, i, m, ws[i].t.modules[m].name, ws[i].t.modules[m].peak)
    decreases i
  {
    if i > 0 {
      RunKeepsInv(ws, events, i - 1);
      PeakStep(ws[i - 1], events[i - 1], m);
      var name := ws[i].t.modules[m].name;
      if m < |ws[i - 1].t.modules| {
        ModulePeakIsMaximum(ws, events, i - 1, m);
        PeakGrows(ws, events, i, m, name, ws[i - 1].t.modules[m].peak);
      } else {
        NotChargedBefore(ws, events, i - 1, m);
        PeakBegins(ws, events, i, m, name);
      }
    }
  }

  /** The list of modules only grows. */
  lemma {:induction false} NotChargedBefore(ws: seq<World>, events: seq<Event>, i: nat, m: nat)
    requires Run(ws, events) && i < |ws| && |ws[i].t.modules| <= m
    ensures forall j :: 0 <= j <= i ==> |ws[j].t.modules| <= m
    decreases i
  {
    if i > 0 {
      RunKeepsInv(ws, events, i - 1);
      ModulesGrow(ws[i - 1], events[i - 1]);
      NotChargedBefore(ws, events, i - 1, m);
    }
  }
}
