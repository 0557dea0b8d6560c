/** When the trace is exact although resizes are two steps: over all interleavings, exactly as
    long as every removal finds the record of the block that goes, and every new block a slot. */
module ResizeExact {
  import opened Bytes
  import opened ResizeSteps
  import opened TraceExact
  import opened TraceRuns
  import opened TraceTable
  import opened Wrappers

  // ----- runs that fit -----

  function SumOf(known: seq<Entry>, which: Option<string>): nat {
    if known == [] then 0 else Weigh(known[0].block, which) + SumOf(known[1..], which)
  }

  function WeighOne(e: Option<Entry>, which: Option<string>): nat {
    if e.Some? then Weigh(e.value.block, which) else 0
  }

  lemma {:induction false} SumOfAppend(a: seq<Entry>, b: seq<Entry>, which: Option<string>)
    ensures SumOf(a + b, which) == SumOf(a, which) + SumOf(b, which)
  {
    if a == [] {
      assert a + b == b;
    } else {
      SumOfAppend(a[1..], b, which);
      assert (a + b)[1..] == a[1..] + b;
    }
  }

  lemma SumOfForget(known: seq<Entry>, e: Option<Entry>, which: Option<string>)
    requires e.Some? ==> e.value in known
    ensures SumOf(Forget(known, e), which) == SumOf(known, which) - WeighOne(e, which)
    ensures WeighOne(e, which) <= SumOf(known, which)
  {
    if e.Some? {
      var k := IndexOf(known, e.value);
      assert known == known[..k] + ([e.value] + known[k + 1..]);
      SumOfAppend(known[..k], [e.value] + known[k + 1..], which);
      SumOfAppend([e.value], known[k + 1..], which);
      SumOfAppend(known[..k], known[k + 1..], which);
      SumOfTell([], e, which);
    }
  }

  lemma SumOfTell(known: seq<Entry>, e: Option<Entry>, which: Option<string>)
    ensures SumOf(Tell(known, e), which) == SumOf(known, which) + WeighOne(e, which)
  {
    if e.Some? {
      SumOfAppend(known, [e.value], which);
      assert [e.value][1..] == [];
    }
  }

  lemma SumStep(f: Fine, e: Act, which: Option<string>)
    requires FineInv(f) && Allowed(f, e)
    ensures SumOf(Take(f, e).known, which) ==
            SumOf(f.known, which) - WeighOne(Goes(f, e), which) + WeighOne(Comes(f, e), which)
    ensures WeighOne(Goes(f, e), which) <= SumOf(f.known, which)
  {
    if Goes(f, e).Some? {
      GoesIsKnown(f, e);
    }
    SumOfForget(f.known, Goes(f, e), which);
    SumOfTell(Forget(f.known, Goes(f, e)), Comes(f, e), which);
  }

  /** The blocks that the trace is to hold stay within 32 bits. */
  predicate Fits32(f: Fine) {
    SumOf(f.known, None) < U32_RANGE
  }

  /** The module of a name is there, or there is none for it. */
  predicate NameSettled(t: Trace, e: Entry) {
    || e.block.name.None? || !t.cfg.byModule
    || FindModule(t.modules, e.block.name.value) < |t.modules| || |t.modules| >= MAX_MODULES
  }

  predicate TraceOk(t: Trace) {
    && NamesDistinct(t.modules) && (!t.cfg.byModule ==> t.modules == [])
    && RecordsFit(t.recs)
  }

  ghost predicate Sound(f: Fine) {
    && FineInv(f) && TraceOk(f.t)
    && forall k :: 0 <= k < |f.known| ==> NameSettled(f.t, f.known[k])
  }

  lemma {:induction false} FindKept(a: seq<Module>, b: seq<Module>, name: string)
    requires |a| <= |b| && forall i :: 0 <= i < |a| ==> a[i].name == b[i].name
    ensures FindModule(a, name) < |a| ==> FindModule(b, name) == FindModule(a, name)
    ensures |a| == |b| ==> FindModule(b, name) == FindModule(a, name)
  {
    if a != [] {
      FindKept(a[1..], b[1..], name);
    }
  }

  lemma SettledKept(t: Trace, u: Trace, e: Entry)
    requires NameSettled(t, e) && NamesKept(t, u)
    ensures NameSettled(u, e) && RecordOf(u, e) == RecordOf(t, e)
  {
    if e.block.name.Some? {
      FindKept(t.modules, u.modules, e.block.name.value);
    }
  }

  lemma TakeNames(f: Fine, e: Act)
    requires Sound(f) && Allowed(f, e)
    ensures NamesKept(f.t, Take(f, e).t) && NamesDistinct(Take(f, e).t.modules)
    ensures NamesKept(f.t, Emptied(f, e)) && |Emptied(f, e).modules| == |f.t.modules|
    ensures NamesDistinct(Emptied(f, e).modules)
    ensures Comes(f, e).Some? ==> NameSettled(Take(f, e).t, Comes(f, e).value)
  {
    if Removes(f, e).Some? {
      RemoveTraceNames(f.t, Removes(f, e).value);
    }
    if Comes(f, e).Some? {
      var c := Comes(f, e).value;
      AddTraceNames(Emptied(f, e), c.block.name, c.addr, c.block.size);
    }
  }

  lemma EmptiedRecords(f: Fine, e: Act)
    requires TraceOk(f.t) && (e.Ended? ==> e.k < |f.calls|)
    ensures RecordsFit(Emptied(f, e).recs)
  {
  }

  lemma NamesStaySettled(f: Fine, e: Act)
    requires Sound(f) && Allowed(f, e)
    ensures forall k :: 0 <= k < |Take(f, e).known| ==> NameSettled(Take(f, e).t, Take(f, e).known[k])
  {
    var t, known, kept := Take(f, e).t, Take(f, e).known, Forget(f.known, Goes(f, e));
    TakeNames(f, e);
    forall k | 0 <= k < |known| ensures NameSettled(t, known[k]) {
      if k < |kept| {
        assert kept[k] in f.known;
        SettledKept(f.t, t, kept[k]);
      }
    }
  }

  predicate RecordsFit(recs: seq<Record>) {
    forall i :: 0 <= i < |recs| ==> recs[i].size < U32_RANGE
  }

  lemma AddedFits(u: Trace, c: Option<Entry>)
    requires RecordsFit(u.recs) && WeighOne(c, None) < U32_RANGE && (!u.cfg.byModule ==> u.modules == [])
    ensures RecordsFit(Added(u, c).recs) && (!u.cfg.byModule ==> Added(u, c).modules == [])
  {
  }

  lemma TraceStaysOk(f: Fine, e: Act)
    requires Sound(f) && Allowed(f, e) && Fits32(Take(f, e))
    ensures TraceOk(Take(f, e).t)
  {
    TakeNames(f, e);
    EmptiedRecords(f, e);
    SumStep(f, e, None);
    AddedFits(Emptied(f, e), Comes(f, e));
  }

  lemma TakeIsSound(f: Fine, e: Act)
    requires Sound(f) && Allowed(f, e) && Fits32(Take(f, e))
    ensures Sound(Take(f, e))
  {
    ActKeepsInv(f, e);
    TraceStaysOk(f, e);
    NamesStaySettled(f, e);
  }

  ghost predicate FitsUpTo(fs: seq<Fine>, i: nat)
    requires i < |fs|
  {
    forall j :: 0 <= j <= i ==> Fits32(fs[j])
  }

  lemma {:induction false} RunIsSound(fs: seq<Fine>, es: seq<Act>, i: nat)
    requires FineRun(fs, es) && i < |fs| && FitsUpTo(fs, i)
    ensures Sound(fs[i])
    decreases i
  {
    RunMeans(fs, es, i);
    if i > 0 {
      RunIsSound(fs, es, i - 1);
      assert StepAt(fs, es, i - 1);
      TakeIsSound(fs[i - 1], es[i - 1]);
    }
  }

  // ----- the table -----

  /** The record that the table is to hold of a block. */
  function RecordOf(t: Trace, e: Entry): Record {
    var i := if t.cfg.byModule && e.block.name.Some? then FindModule(t.modules, e.block.name.value) else |t.modules|;
    if i < |t.modules| then Record(e.addr, e.block.size, i, true) else Record(e.addr, e.block.size, 0, false)
  }

  function Records(t: Trace, known: seq<Entry>): seq<Record> {
    if known == [] then [] else [RecordOf(t, known[0])] + Records(t, known[1..])
  }

  /** The table holds exactly the records of the blocks that it is to hold, in some order. */
  ghost predicate Exact(f: Fine) {
    forall r :: Differs(f, r) == 0
  }

  function Differs(f: Fine, r: Record): int {
    Times(f.t.recs, r) - Times(Records(f.t, f.known), r)
  }

  /** The record that a removal takes out of the table. */
  function Found(f: Fine, e: Act): Option<Record>
    requires e.Ended? ==> e.k < |f.calls|
  {
    if Removes(f, e).Some? then Lookup(f.t.recs, Removes(f, e).value) else None
  }

  /** The removal takes out the record of the block that goes, and a new block finds a slot. */
  predicate Right(f: Fine, e: Act)
    requires e.Ended? ==> e.k < |f.calls|
  {
    && Found(f, e) == (if Goes(f, e).Some? then Some(RecordOf(f.t, Goes(f, e).value)) else None)
    && (Comes(f, e).Some? ==> HasSlot(Emptied(f, e)))
  }

  function One(o: Option<Record>, r: Record): int {
    if o == Some(r) then 1 else 0
  }

  lemma {:induction false} RecordsAppend(t: Trace, a: seq<Entry>, b: seq<Entry>)
    ensures Records(t, a + b) == Records(t, a) + Records(t, b)
  {
    if a == [] {
      assert a + b == b;
    } else {
      RecordsAppend(t, a[1..], b);
      assert (a + b)[1..] == a[1..] + b;
      Associative([RecordOf(t, a[0])], Records(t, a[1..]), Records(t, b));
    }
  }

  lemma RecordsOne(t: Trace, e: Entry, r: Record)
    ensures Times(Records(t, [e]), r) == One(Some(RecordOf(t, e)), r)
  {
    assert [e][1..] == [] && Records(t, [e]) == [RecordOf(t, e)];
    TimesOne(RecordOf(t, e), r);
  }

  lemma RecordsForget(t: Trace, known: seq<Entry>, e: Option<Entry>, r: Record)
    requires e.Some? ==> e.value in known
    ensures Times(Records(t, Forget(known, e)), r) ==
            Times(Records(t, known), r) - if e.Some? then One(Some(RecordOf(t, e.value)), r) else 0
  {
    if e.Some? {
      var k := IndexOf(known, e.value);
      assert known == known[..k] + ([e.value] + known[k + 1..]);
      RecordsAppend(t, known[..k], [e.value] + known[k + 1..]);
      RecordsAppend(t, [e.value], known[k + 1..]);
      RecordsAppend(t, known[..k], known[k + 1..]);
      RecordsOne(t, e.value, r);
      TimesAppend(Records(t, known[..k]), Records(t, [e.value] + known[k + 1..]), r);
      TimesAppend(Records(t, [e.value]), Records(t, known[k + 1..]), r);
      TimesAppend(Records(t, known[..k]), Records(t, known[k + 1..]), r);
    }
  }

  lemma RecordsTell(t: Trace, known: seq<Entry>, e: Option<Entry>, r: Record)
    ensures Times(Records(t, Tell(known, e)), r) ==
            Times(Records(t, known), r) + if e.Some? then One(Some(RecordOf(t, e.value)), r) else 0
  {
    if e.Some? {
      RecordsAppend(t, known, [e.value]);
      TimesAppend(Records(t, known), Records(t, [e.value]), r);
      RecordsOne(t, e.value, r);
    }
  }

  lemma {:induction false} RecordsKept(t: Trace, u: Trace, known: seq<Entry>)
    requires NamesKept(t, u) && forall k :: 0 <= k < |known| ==> NameSettled(t, known[k])
    ensures Records(u, known) == Records(t, known)
  {
    if known != [] {
      SettledKept(t, u, known[0]);
      RecordsKept(t, u, known[1..]);
    }
  }

  lemma SwapRemoveTimes(recs: seq<Record>, i: nat, r: Record)
    requires i < |recs|
    ensures Times(SwapRemove(recs, i), r) == Times(recs, r) - One(Some(recs[i]), r)
  {
    var last := |recs| - 1;
    if i < last {
      var a, b := recs[..i], recs[i + 1..last];
      SwapParts(recs, i);
      TimesAppend((a + [recs[i]]) + b, [recs[last]], r);
      TimesAppend(a + [recs[i]], b, r);
      TimesAppend(a, [recs[i]], r);
      TimesAppend(a + [recs[last]], b, r);
      TimesAppend(a, [recs[last]], r);
      TimesOne(recs[i], r);
      TimesOne(recs[last], r);
    } else {
      assert SwapRemove(recs, i) == recs[..last] && recs == recs[..last] + [recs[last]];
      TimesAppend(recs[..last], [recs[last]], r);
      TimesOne(recs[last], r);
    }
  }

  /** What an event does to the table. */
  lemma TableStep(f: Fine, e: Act, r: Record)
    requires Sound(f) && Allowed(f, e)
    ensures Times(Emptied(f, e).recs, r) == Times(f.t.recs, r) - One(Found(f, e), r)
    ensures Times(Take(f, e).t.recs, r) ==
            Times(Emptied(f, e).recs, r) + if Comes(f, e).Some? && HasSlot(Emptied(f, e)) then
                                             One(Some(RecordOf(Take(f, e).t, Comes(f, e).value)), r)
                                           else 0
  {
    if Found(f, e).Some? {
      SwapRemoveTimes(f.t.recs, Find(f.t.recs, Removes(f, e).value), r);
    }
    if Comes(f, e).Some? {
      var u, c := Emptied(f, e), Comes(f, e).value;
      TakeNames(f, e);
      AddedRecord(u, c);
      var x := RecordOf(Take(f, e).t, c);
      TimesAppend(u.recs, [x], r);
      TimesOne(x, r);
    }
  }

  /** add_trace stores the record that the table is to hold. */
  lemma AddedRecord(u: Trace, c: Entry)
    requires NamesDistinct(u.modules)
    ensures var (v, r) := AddTrace(u, c.block.name, c.addr, c.block.size);
            r == RecordOf(v, c) && v.recs == if HasSlot(u) then u.recs + [r] else u.recs
  {
    if c.block.name.Some? {
      var v := AddTrace(u, c.block.name, c.addr, c.block.size).0;
      var i := FindModule(u.modules, c.block.name.value);
      FindKept(u.modules, v.modules, c.block.name.value);
      if i == |u.modules| < |v.modules| {
        assert v.modules[i].name == c.block.name.value;
        assert FindModule(v.modules, c.block.name.value) == i;
      }
    }
  }

  /** What an event does to the records that the table is to hold. */
  lemma KnownStep(f: Fine, e: Act, r: Record)
    requires Sound(f) && Allowed(f, e)
    ensures Times(Records(Take(f, e).t, Take(f, e).known), r) ==
            Times(Records(f.t, f.known), r)
            - (if Goes(f, e).Some? then One(Some(RecordOf(f.t, Goes(f, e).value)), r) else 0)
            + if Comes(f, e).Some? then One(Some(RecordOf(Take(f, e).t, Comes(f, e).value)), r) else 0
  {
    var kept := Forget(f.known, Goes(f, e));
    if Goes(f, e).Some? {
      GoesIsKnown(f, e);
    }
    RecordsForget(f.t, f.known, Goes(f, e), r);
    TakeNames(f, e);
    forall k | 0 <= k < |kept| ensures NameSettled(f.t, kept[k]) {
      assert kept[k] in f.known;
    }
    RecordsKept(f.t, Take(f, e).t, kept);
    RecordsTell(Take(f, e).t, kept, Comes(f, e), r);
  }

  lemma {:induction false} TimesIn<T>(s: seq<T>, e: T)
    ensures Times(s, e) > 0 <==> e in s
  {
    if s != [] {
      TimesIn(s[1..], e);
      assert s == [s[0]] + s[1..];
    }
  }

  lemma {:induction false} RecordIn(t: Trace, known: seq<Entry>, e: Entry)
    requires e in known
    ensures RecordOf(t, e) in Records(t, known)
  {
    if known[0] != e {
      RecordIn(t, known[1..], e);
    }
  }

  /** In an exact table the block that goes has a record at its address. */
  lemma GoesIsFound(f: Fine, e: Act)
    requires Sound(f) && Allowed(f, e) && Exact(f) && Goes(f, e).Some?
    ensures Found(f, e).Some?
  {
    var g := Goes(f, e).value;
    var r := RecordOf(f.t, g);
    GoesIsKnown(f, e);
    RecordIn(f.t, f.known, g);
    TimesIn(Records(f.t, f.known), r);
    assert Differs(f, r) == 0;
    TimesIn(f.t.recs, r);
    var i :| 0 <= i < |f.t.recs| && f.t.recs[i] == r;
    assert r.addr == Removes(f, e).value && Find(f.t.recs, r.addr) <= i;
  }

  lemma ExactStep(f: Fine, e: Act)
    requires Sound(f) && Allowed(f, e) && Exact(f)
    ensures Exact(Take(f, e)) <==> Right(f, e)
  {
    var g := Take(f, e);
    var gone := if Goes(f, e).Some? then Some(RecordOf(f.t, Goes(f, e).value)) else None;
    var come := if Comes(f, e).Some? then Some(RecordOf(g.t, Comes(f, e).value)) else None;
    var missed := if HasSlot(Emptied(f, e)) then None else come;
    forall r ensures Differs(g, r) == One(gone, r) - One(Found(f, e), r) - One(missed, r) {
      assert Differs(f, r) == 0;
      TableStep(f, e, r);
      KnownStep(f, e, r);
    }
    if Goes(f, e).Some? {
      GoesIsFound(f, e);
    }
    if !Right(f, e) {
      if gone != Found(f, e) && Found(f, e).Some? {
        assert Differs(g, Found(f, e).value) < 0;
      } else {
        assert Differs(g, missed.value) < 0;
      }
    }
  }

  ghost predicate ExactUpTo(fs: seq<Fine>, i: nat)
    requires i < |fs|
  {
    forall j :: 0 <= j <= i ==> Exact(fs[j])
  }

  predicate RightAt(fs: seq<Fine>, es: seq<Act>, k: nat)
    requires k < |es| && k + 1 < |fs|
  {
    Allowed(fs[k], es[k]) && Right(fs[k], es[k])
  }

  predicate RightUpTo(fs: seq<Fine>, es: seq<Act>, i: nat)
    requires i <= |es| && i < |fs|
  {
    forall k :: 0 <= k < i ==> RightAt(fs, es, k)
  }

  /** Over all interleavings with two-step resizes: the table holds exactly the blocks that it
      is to hold, with size and module, throughout a run, if and only if every removal has found
      the record of the block that went (or one just like it), none when no block went, and every
      new block a slot. */
  lemma {:induction false} RecordsExactly(fs: seq<Fine>, es: seq<Act>, i: nat)
    requires FineRun(fs, es) && i < |fs| && FitsUpTo(fs, i)
    ensures ExactUpTo(fs, i) <==> RightUpTo(fs, es, i)
    decreases i
  {
    if i > 0 {
      RecordsExactly(fs, es, i - 1);
      RunIsSound(fs, es, i - 1);
      assert StepAt(fs, es, i - 1);
      assert RightAt(fs, es, i - 1) <==> Right(fs[i - 1], es[i - 1]);
      if ExactUpTo(fs, i - 1) {
        ExactStep(fs[i - 1], es[i - 1]);
      }
    } else {
      forall r ensures Differs(fs[0], r) == 0 {
      }
    }
  }
}
