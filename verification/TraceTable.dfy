/** The allocation trace of media_lib_mem_trace.c on values: the record table with
    swap-with-last removal, the running totals, and the module list. */
module TraceTable {
  import opened Bytes
  import opened Wrappers

  const MAX_MODULES := 256
  const TRAP_SIZE := 860

  /** `owned` says that the size was added to the usage of module `id`; the source does not
      store it, and uses id 0 both for the first module and for no module. */
  datatype Record = Record(addr: int, size: nat, id: nat, owned: bool)

  datatype Module = Module(name: string, usage: nat, peak: nat)

  datatype Config = Config(cap: nat, byModule: bool)

  datatype Trace = Trace(cfg: Config, recs: seq<Record>, usage: nat, peak: nat, modules: seq<Module>, overflow: bool)

  function Start(cfg: Config): Trace {
    Trace(cfg, [], 0, 0, [], false)
  }

  // ----- the table -----

  /** Position of the first record of an address, or the length of the table. */
  function Find(recs: seq<Record>, addr: int): (i: nat)
    ensures i <= |recs|
    ensures i < |recs| ==> recs[i].addr == addr
    ensures forall k :: 0 <= k < i ==> recs[k].addr != addr
  {
    if recs == [] then 0
    else if recs[0].addr == addr then 0
    else 1 + Find(recs[1..], addr)
  }

  /** Removal: the last record takes the place of the removed one. */
  function SwapRemove(recs: seq<Record>, i: nat): seq<Record>
    requires i < |recs|
  {
    var last := |recs| - 1;
    recs[i := recs[last]][..last]
  }

  predicate Distinct(recs: seq<Record>) {
    forall i, j :: 0 <= i < j < |recs| ==> recs[i].addr != recs[j].addr
  }

  function Lookup(recs: seq<Record>, addr: int): Option<Record> {
    var i := Find(recs, addr);
    if i < |recs| then Some(recs[i]) else None
  }

  /** Swap-with-last removal forgets exactly one address and keeps every other record. */
  lemma SwapRemoveKeepsOthers(recs: seq<Record>, i: nat)
    requires Distinct(recs) && i < |recs|
    ensures Distinct(SwapRemove(recs, i))
    ensures forall a :: Lookup(SwapRemove(recs, i), a) == if a == recs[i].addr then None else Lookup(recs, a)
  {
    var last := |recs| - 1;
    var s := SwapRemove(recs, i);
    forall a ensures Lookup(s, a) == if a == recs[i].addr then None else Lookup(recs, a) {
      var k, k' := Find(recs, a), Find(s, a);
      if k < |recs| && k != i {
        assert s[if k == last then i else k] == recs[k];
      }
      if k' < |s| {
        assert s[k'] == recs[if k' == i then last else k'];
      }
    }
  }

  // ----- sums -----

  function Sum(recs: seq<Record>): nat {
    if recs == [] then 0 else recs[0].size + Sum(recs[1..])
  }

  /** The share of a record in the usage of module m. */
  function Share(r: Record, m: nat): nat {
    if r.owned && r.id == m then r.size else 0
  }

  function Shares(recs: seq<Record>, m: nat): nat {
    if recs == [] then 0 else Share(recs[0], m) + Shares(recs[1..], m)
  }

  lemma {:induction false} SumAppend(a: seq<Record>, b: seq<Record>, m: nat)
    ensures Sum(a + b) == Sum(a) + Sum(b) && Shares(a + b, m) == Shares(a, m) + Shares(b, m)
  {
    if a == [] {
      assert a + b == b;
    } else {
      SumAppend(a[1..], b, m);
      assert (a + b)[1..] == a[1..] + b;
    }
  }

  lemma SumPush(recs: seq<Record>, r: Record, m: nat)
    ensures Sum(recs + [r]) == Sum(recs) + r.size && Shares(recs + [r], m) == Shares(recs, m) + Share(r, m)
  {
    SumAppend(recs, [r], m);
    assert [r][1..] == [];
  }

  lemma SumOne(a: seq<Record>, r: Record, b: seq<Record>, m: nat)
    ensures Sum(a + [r] + b) == Sum(a) + r.size + Sum(b)
    ensures Shares(a + [r] + b, m) == Shares(a, m) + Share(r, m) + Shares(b, m)
  {
    SumPush(a, r, m);
    SumAppend(a + [r], b, m);
  }

  /** How the table looks around position i, before and after. */
  lemma SwapParts(recs: seq<Record>, i: nat)
    requires i < |recs| - 1
    ensures var last := |recs| - 1; var a, b := recs[..i], recs[i + 1..last];
            && recs == (a + [recs[i]] + b) + [recs[last]] && SwapRemove(recs, i) == a + [recs[last]] + b
  {
  }

  /** Taking record i out lowers every sum by its share. */
  lemma SumsWithout(recs: seq<Record>, i: nat, m: nat)
    requires i < |recs|
    ensures Sum(SwapRemove(recs, i)) == Sum(recs) - recs[i].size
    ensures Shares(SwapRemove(recs, i), m) == Shares(recs, m) - Share(recs[i], m)
  {
    var last := |recs| - 1;
    if i < last {
      var a, b := recs[..i], recs[i + 1..last];
      SwapParts(recs, i);
      SumPush(a + [recs[i]] + b, recs[last], m);
      SumOne(a, recs[i], b, m);
      SumOne(a, recs[last], b, m);
    } else {
      assert SwapRemove(recs, i) == recs[..last] && recs == recs[..last] + [recs[last]];
      SumPush(recs[..last], recs[last], m);
    }
  }

  // ----- the operations -----

  /** Index of the module of that name, or the number of modules. */
  function FindModule(modules: seq<Module>, name: string): (i: nat)
    ensures i <= |modules|
    ensures i < |modules| ==> modules[i].name == name
    ensures forall k :: 0 <= k < i ==> modules[k].name != name
  {
    if modules == [] then 0
    else if modules[0].name == name then 0
    else 1 + FindModule(modules[1..], name)
  }

  function Max(a: nat, b: nat): nat {
    if a < b then b else a
  }

  function AddTotal(t: Trace, size: nat): Trace {
    var usage := (t.usage + size) % U32_RANGE;
    t.(usage := usage, peak := Max(t.peak, usage))
  }

  function Charge(modules: seq<Module>, i: nat, size: nat): seq<Module>
    requires i < |modules|
  {
    var usage := (modules[i].usage + size) % U32_RANGE;
    modules[i := modules[i].(usage := usage, peak := Max(modules[i].peak, usage))]
  }

  /** add_mem_usage: the new totals, the module id, and whether a module was charged. */
  function AddUsage(t: Trace, name: Option<string>, size: nat): (Trace, nat, bool) {
    var a := AddTotal(t, size);
    if !t.cfg.byModule || name.None? then (a, 0, false)
    else
      var i := FindModule(t.modules, name.value);
      if i < |t.modules| then (a.(modules := Charge(t.modules, i, size)), i, true)
      else if |t.modules| >= MAX_MODULES then (a, 0, false)
      else (a.(modules := Charge(t.modules + [Module(name.value, 0, 0)], i, size)), i, true)
  }

  function Minus(a: nat, b: nat): nat {
    (a - b) % U32_RANGE
  }

  /** remove_mem_usage. */
  function RemoveUsage(t: Trace, id: nat, size: nat): Trace {
    var u := t.(usage := Minus(t.usage, size));
    if t.cfg.byModule && id < |t.modules| then
      u.(modules := t.modules[id := t.modules[id].(usage := Minus(t.modules[id].usage, size))])
    else u
  }

  /** Whether add_trace finds a place for the record. */
  predicate HasSlot(t: Trace) {
    |t.recs| < t.cfg.cap
  }

  /** add_trace: on a full table the size stays in the totals although no record is kept. */
  function AddTrace(t: Trace, name: Option<string>, addr: int, size: nat): (Trace, Record) {
    var (u, id, owned) := AddUsage(t, name, size);
    var r := Record(addr, size, id, owned);
    if t.cfg.cap == 0 then (u, r)
    else if HasSlot(t) then (u.(recs := t.recs + [r], overflow := false), r)
    else (u.(overflow := true), r)
  }

  /** remove_trace. */
  function RemoveTrace(t: Trace, addr: int): Trace {
    var i := Find(t.recs, addr);
    if i < |t.recs| then
      RemoveUsage(t, t.recs[i].id, t.recs[i].size).(recs := SwapRemove(t.recs, i))
    else t
  }
}
