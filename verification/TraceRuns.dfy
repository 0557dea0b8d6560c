/** Runs of the allocation trace against a reference: the map of live blocks that the
    allocator has handed out, kept without any table. */
module TraceRuns {
  import opened Bytes
  import opened TraceTable
  import opened Wrappers

  /** Blocks that the table does not hold: live ones whose size is still in the total
      (`counted`, the table was full) or is not (`orphans`, a resize failed), and released
      ones whose size was never subtracted (`leaked`).  `strays` were released without an
      owner although their id 0 named a module. */
  datatype Books = Books(counted: seq<Record>, orphans: seq<Record>, leaked: seq<Record>, strays: seq<Record>)

  /** A live block as its owner asked for it. */
  datatype Block = Block(size: nat, name: Option<string>)

  /** `live` is the reference.  `calm` says that the 32-bit total has not wrapped so far,
      `top` is the largest total so far. */
  datatype World = World(t: Trace, b: Books, live: map<int, Block>, calm: bool, top: nat)

  /** `Resize` without a new address has failed, except for size 0, where it is a release. */
  datatype Event =
    | Alloc(name: Option<string>, addr: int, size: nat)
    | Release(addr: int)
    | Resize(name: Option<string>, old': Option<int>, new': Option<int>, size: nat)

  // ----- the reference -----

  /** What the allocator guarantees, and that the debugging trap on size 860 is not hit. */
  predicate Legal(w: World, e: Event) {
    match e
    case Alloc(_, addr, size) => addr !in w.live && (HasSlot(w.t) ==> size != TRAP_SIZE)
    case Release(_) => true
    case Resize(_, old', new', size) =>
      && (old'.Some? ==> old'.value in w.live)
      && (new'.Some? && new'.value in w.live ==> new' == old')
      && (new'.Some? && HasSlot(Vacated(w, old')) ==> size != TRAP_SIZE)
  }

  function LiveAfter(live: map<int, Block>, e: Event): map<int, Block> {
    match e
    case Alloc(name, addr, size) => live[addr := Block(size, name)]
    case Release(addr) => live - {addr}
    case Resize(name, old', new', size) =>
      var without := if old'.Some? then live - {old'.value} else live;
      if new'.Some? then without[new'.value := Block(size, name)]
      else if size == 0 then without
      else live
  }

  // ----- the trace and its books -----

  function Total(t: Trace, b: Books): nat {
    Sum(t.recs) + Sum(b.counted) + Sum(b.leaked)
  }

  function ModuleTotal(t: Trace, b: Books, m: nat): nat {
    Shares(t.recs, m) + Shares(b.counted, m) + Shares(b.leaked, m)
  }

  function AllocStep(t: Trace, b: Books, name: Option<string>, addr: int, size: nat): (Trace, Books) {
    var (u, r) := AddTrace(t, name, addr, size);
    (u, if HasSlot(t) then b else b.(counted := b.counted + [r]))
  }

  /** A removal from the table that no module was charged for. */
  function StraysAfter(t: Trace, b: Books, r: Record): seq<Record> {
    if !r.owned && t.cfg.byModule && r.id < |t.modules| then b.strays + [r] else b.strays
  }

  function ReleaseStep(t: Trace, b: Books, addr: int): (Trace, Books) {
    var i, j, k := Find(t.recs, addr), Find(b.counted, addr), Find(b.orphans, addr);
    var u := RemoveTrace(t, addr);
    if i < |t.recs| then (u, b.(strays := StraysAfter(t, b, t.recs[i])))
    else if j < |b.counted| then
      (u, b.(counted := SwapRemove(b.counted, j), leaked := b.leaked + [b.counted[j]]))
    else if k < |b.orphans| then (u, b.(orphans := SwapRemove(b.orphans, k)))
    else (u, b)
  }

  /** A resize that fails: the block lives on, its record is removed all the same. */
  function FailedStep(t: Trace, b: Books, addr: int): (Trace, Books) {
    var i := Find(t.recs, addr);
    var u := RemoveTrace(t, addr);
    if i < |t.recs| then
      (u, b.(orphans := b.orphans + [t.recs[i]], strays := StraysAfter(t, b, t.recs[i])))
    else (u, b)
  }

  /** The trace from which a resize has already removed the old block. */
  function Vacated(w: World, old': Option<int>): Trace {
    if old'.Some? then ReleaseStep(w.t, w.b, old'.value).0 else w.t
  }

  function Step(w: World, e: Event): World {
    var (t, b) :=
      match e
      case Alloc(name, addr, size) => AllocStep(w.t, w.b, name, addr, size)
      case Release(addr) => ReleaseStep(w.t, w.b, addr)
      case Resize(name, old', new', size) =>
        if new'.None? then
          if old'.None? then (w.t, w.b)
          else if size == 0 then ReleaseStep(w.t, w.b, old'.value)
          else FailedStep(w.t, w.b, old'.value)
        else
          var (t1, b1) := if old'.None? then (w.t, w.b) else ReleaseStep(w.t, w.b, old'.value);
          AllocStep(t1, b1, name, new'.value, size);
    World(t, b, LiveAfter(w.live, e), w.calm && Total(t, b) < U32_RANGE, Max(w.top, t.usage))
  }

  // ----- the invariant -----

  /** No module was charged for a block: it had no name, modules are not traced, or there
      was no room for another module. */
  predicate Nameless(cfg: Config, modules: seq<Module>, name: Option<string>) {
    || name.None? || !cfg.byModule
    || (|modules| >= MAX_MODULES && FindModule(modules, name.value) == |modules|)
  }

  /** The record of a block: its size, and the module of the name that it was asked for under. */
  predicate Holds(cfg: Config, modules: seq<Module>, block: Block, r: Record) {
    && r.size == block.size
    && if r.owned then block.name.Some? && r.id < |modules| && modules[r.id].name == block.name.value
       else r.id == 0 && Nameless(cfg, modules, block.name)
  }

  /** Every live block is in exactly one place, with its size and module. */
  predicate At(t: Trace, b: Books, live: map<int, Block>, a: int) {
    match (Lookup(t.recs, a), Lookup(b.counted, a), Lookup(b.orphans, a))
    case (None, None, None) => a !in live
    case (Some(r), None, None) => a in live && Holds(t.cfg, t.modules, live[a], r)
    case (None, Some(r), None) => a in live && Holds(t.cfg, t.modules, live[a], r)
    case (None, None, Some(r)) => a in live && Holds(t.cfg, t.modules, live[a], r)
    case _ => false
  }

  predicate NamesDistinct(modules: seq<Module>) {
    forall i, j :: 0 <= i < j < |modules| ==> modules[i].name != modules[j].name
  }

  ghost predicate Places(t: Trace, b: Books, live: map<int, Block>) {
    && Distinct(t.recs) && Distinct(b.counted) && Distinct(b.orphans)
    && |t.recs| <= t.cfg.cap && NamesDistinct(t.modules)
    && forall a :: At(t, b, live, a)
  }

  /** An owned record names a module; a record without an owner has id 0. */
  predicate IdsFit(recs: seq<Record>, modules: nat) {
    forall i :: 0 <= i < |recs| ==> if recs[i].owned then recs[i].id < modules else recs[i].id == 0
  }

  predicate Ids(t: Trace, b: Books) {
    && IdsFit(t.recs, |t.modules|) && IdsFit(b.counted, |t.modules|) && IdsFit(b.leaked, |t.modules|)
    && |t.modules| <= MAX_MODULES && (!t.cfg.byModule ==> t.modules == [])
    && (t.modules == [] ==> b.strays == [])
  }

  function StraySum(b: Books, m: nat): nat {
    if m == 0 then Sum(b.strays) else 0
  }

  predicate Same(a: nat, b: nat) {
    a % U32_RANGE == b % U32_RANGE
  }

  predicate TotalFits(t: Trace, b: Books) {
    t.usage < U32_RANGE && Same(t.usage, Total(t, b))
  }

  ghost predicate ModulesFit(t: Trace, b: Books) {
    forall m :: 0 <= m < |t.modules| ==> ModuleFits(t, b, m)
  }

  predicate ModuleFits(t: Trace, b: Books, m: nat)
    requires m < |t.modules|
  {
    t.modules[m].usage < U32_RANGE && Same(t.modules[m].usage + StraySum(b, m), ModuleTotal(t, b, m))
  }

  ghost predicate Balanced(t: Trace, b: Books) {
    Ids(t, b) && TotalFits(t, b) && ModulesFit(t, b)
  }

  ghost predicate Inv(w: World) {
    && Places(w.t, w.b, w.live) && Balanced(w.t, w.b)
    && (w.calm ==> Total(w.t, w.b) < U32_RANGE && w.t.usage <= w.top && w.t.peak == w.top)
  }

  // ----- each operation keeps it -----

  lemma LookupAppend(recs: seq<Record>, r: Record, a: int)
    ensures Lookup(recs + [r], a) ==
            if Lookup(recs, a).Some? then Lookup(recs, a) else if a == r.addr then Some(r) else None
  {
    var s := recs + [r];
    var i, k := Find(recs, a), Find(s, a);
    if i < |recs| {
      assert s[i] == recs[i];
      assert k <= i && s[k] == recs[k];
    } else if a == r.addr {
      assert s[|recs|] == r;
    }
  }

  lemma AddSame(a: nat, s: nat, b: nat, c: nat)
    requires Same(a + s, b)
    ensures Same((a + c) % U32_RANGE + s, b + c)
  {
    assert ((a + c) % U32_RANGE + s) % U32_RANGE == (a + s + c) % U32_RANGE;
  }

  lemma SubSame(a: nat, s: nat, b: nat, c: nat)
    requires Same(a + s, b) && c <= b
    ensures Same(Minus(a, c) + s, b - c)
  {
    assert (Minus(a, c) + s) % U32_RANGE == (a - c + s) % U32_RANGE;
  }

  lemma StraySame(a: nat, s: nat, b: nat, c: nat)
    requires Same(a + s, b)
    ensures Same(Minus(a, c) + (s + c), b)
  {
    assert (Minus(a, c) + (s + c)) % U32_RANGE == (a - c + (s + c)) % U32_RANGE;
  }

  lemma {:induction false} SharesOfNobody(recs: seq<Record>, n: nat, m: nat)
    requires IdsFit(recs, n) && n <= m
    ensures Shares(recs, m) == 0
  {
    if recs != [] {
      SharesOfNobody(recs[1..], n, m);
    }
  }

  /** u has the modules of t, with other totals, and perhaps one more behind them. */
  predicate NamesKept(t: Trace, u: Trace) {
    && u.cfg == t.cfg && |t.modules| <= |u.modules|
    && (forall i :: 0 <= i < |t.modules| ==> u.modules[i].name == t.modules[i].name)
    && (|t.modules| >= MAX_MODULES ==> |u.modules| == |t.modules|)
  }

  lemma FindSame(a: seq<Module>, b: seq<Module>, name: string)
    requires |a| == |b| && forall i :: 0 <= i < |a| ==> a[i].name == b[i].name
    ensures FindModule(a, name) == FindModule(b, name)
  {
  }

  lemma HoldsKept(t: Trace, u: Trace, block: Block, r: Record)
    requires Holds(t.cfg, t.modules, block, r) && NamesKept(t, u)
    ensures Holds(u.cfg, u.modules, block, r)
  {
    if block.name.Some? && |u.modules| == |t.modules| {
      FindSame(t.modules, u.modules, block.name.value);
    }
  }

  lemma AtKept(t: Trace, u: Trace, b: Books, live: map<int, Block>, a: int)
    requires At(t, b, live, a) && NamesKept(t, u) && u.recs == t.recs
    ensures At(u, b, live, a)
  {
    if Lookup(t.recs, a).Some? {
      HoldsKept(t, u, live[a], Lookup(t.recs, a).value);
    } else if Lookup(b.counted, a).Some? {
      HoldsKept(t, u, live[a], Lookup(b.counted, a).value);
    } else if Lookup(b.orphans, a).Some? {
      HoldsKept(t, u, live[a], Lookup(b.orphans, a).value);
    }
  }

  lemma PlacesKept(t: Trace, u: Trace, b: Books, live: map<int, Block>)
    requires Places(t, b, live) && NamesKept(t, u) && u.recs == t.recs && NamesDistinct(u.modules)
    ensures Places(u, b, live)
  {
    forall a ensures At(u, b, live, a) {
      assert At(t, b, live, a);
      AtKept(t, u, b, live, a);
    }
  }

  /** The module that add_mem_usage finds or creates is the one of the requested name. */
  lemma AddTraceNames(t: Trace, name: Option<string>, addr: int, size: nat)
    requires NamesDistinct(t.modules)
    ensures var (u, r) := AddTrace(t, name, addr, size);
            && NamesKept(t, u) && NamesDistinct(u.modules) && r.addr == addr
            && Holds(u.cfg, u.modules, Block(size, name), r)
  {
  }

  lemma RemoveTraceNames(t: Trace, addr: int)
    ensures NamesKept(t, RemoveTrace(t, addr)) && |RemoveTrace(t, addr).modules| == |t.modules|
    ensures NamesDistinct(t.modules) ==> NamesDistinct(RemoveTrace(t, addr).modules)
  {
  }

  lemma DistinctAppend(recs: seq<Record>, r: Record)
    requires Distinct(recs) && Lookup(recs, r.addr).None?
    ensures Distinct(recs + [r])
  {
  }

  /** A new block is placed in the table or, when that is full, among the counted ones. */
  lemma NewPlace(t: Trace, b: Books, live: map<int, Block>, u: Trace, c: Books, r: Record, block: Block)
    requires Places(t, b, live) && r.addr !in live && Holds(t.cfg, t.modules, block, r)
    requires u == t.(recs := u.recs, overflow := u.overflow)
    requires if HasSlot(t) then u.recs == t.recs + [r] && c == b
             else u.recs == t.recs && c == b.(counted := b.counted + [r])
    ensures Places(u, c, live[r.addr := block])
  {
    var live' := live[r.addr := block];
    assert At(t, b, live, r.addr);
    forall a ensures At(u, c, live', a) {
      assert At(t, b, live, a);
      LookupAppend(t.recs, r, a);
      LookupAppend(b.counted, r, a);
    }
    DistinctAppend(t.recs, r);
    DistinctAppend(b.counted, r);
  }

  lemma AllocKeepsPlaces(t: Trace, b: Books, live: map<int, Block>, name: Option<string>, addr: int, size: nat)
    requires Places(t, b, live) && addr !in live
    ensures var (u, c) := AllocStep(t, b, name, addr, size); Places(u, c, live[addr := Block(size, name)])
  {
    var (u, c) := AllocStep(t, b, name, addr, size);
    var r := AddTrace(t, name, addr, size).1;
    var t1 := u.(recs := t.recs);
    AddTraceNames(t, name, addr, size);
    PlacesKept(t, t1, b, live);
    NewPlace(t1, b, live, u, c, r, Block(size, name));
  }

  /** The block at an address leaves its place. */
  lemma OldPlace(t: Trace, b: Books, live: map<int, Block>, u: Trace, c: Books, addr: int)
    requires Places(t, b, live) && u == t.(recs := u.recs)
    requires var i, j, k := Find(t.recs, addr), Find(b.counted, addr), Find(b.orphans, addr);
             && c == b.(counted := c.counted, orphans := c.orphans, leaked := c.leaked, strays := c.strays)
             && u.recs == (if i < |t.recs| then SwapRemove(t.recs, i) else t.recs)
             && c.counted == (if i == |t.recs| && j < |b.counted| then SwapRemove(b.counted, j) else b.counted)
             && c.orphans == (if i == |t.recs| && j == |b.counted| && k < |b.orphans| then SwapRemove(b.orphans, k)
                              else b.orphans)
    ensures Places(u, c, live - {addr})
  {
    var i, j, k := Find(t.recs, addr), Find(b.counted, addr), Find(b.orphans, addr);
    var live' := live - {addr};
    assert At(t, b, live, addr);
    if i < |t.recs| {
      SwapRemoveKeepsOthers(t.recs, i);
    } else if j < |b.counted| {
      SwapRemoveKeepsOthers(b.counted, j);
    } else if k < |b.orphans| {
      SwapRemoveKeepsOthers(b.orphans, k);
    }
    forall a ensures At(u, c, live', a) {
      assert At(t, b, live, a);
    }
  }

  lemma ReleaseKeepsPlaces(t: Trace, b: Books, live: map<int, Block>, addr: int)
    requires Places(t, b, live)
    ensures var (u, c) := ReleaseStep(t, b, addr); Places(u, c, live - {addr})
  {
    var (u, c) := ReleaseStep(t, b, addr);
    var t1 := u.(recs := t.recs);
    RemoveTraceNames(t, addr);
    PlacesKept(t, t1, b, live);
    OldPlace(t1, b, live, u, c, addr);
  }

  /** The record of a live block moves from the table to the orphans. */
  lemma OrphanPlace(t: Trace, b: Books, live: map<int, Block>, u: Trace, c: Books, i: nat)
    requires Places(t, b, live) && i < |t.recs| && u == t.(recs := SwapRemove(t.recs, i))
    requires c == b.(orphans := b.orphans + [t.recs[i]], strays := c.strays)
    ensures Places(u, c, live)
  {
    assert Find(t.recs, t.recs[i].addr) == i;
    assert At(t, b, live, t.recs[i].addr);
    SwapRemoveKeepsOthers(t.recs, i);
    DistinctAppend(b.orphans, t.recs[i]);
    forall a ensures At(u, c, live, a) {
      assert At(t, b, live, a);
      LookupAppend(b.orphans, t.recs[i], a);
    }
  }

  lemma FailedKeepsPlaces(t: Trace, b: Books, live: map<int, Block>, addr: int)
    requires Places(t, b, live)
    ensures var (u, c) := FailedStep(t, b, addr); Places(u, c, live)
  {
    var (u, c) := FailedStep(t, b, addr);
    var i := Find(t.recs, addr);
    if i < |t.recs| {
      var t1 := u.(recs := t.recs);
      RemoveTraceNames(t, addr);
      PlacesKept(t, t1, b, live);
      OrphanPlace(t1, b, live, u, c, i);
    }
  }

  // -- the totals

  lemma AllocTotals(t: Trace, b: Books, name: Option<string>, addr: int, size: nat, m: nat)
    ensures var (u, c) := AllocStep(t, b, name, addr, size);
            var r := AddTrace(t, name, addr, size).1;
            && Total(u, c) == Total(t, b) + size && ModuleTotal(u, c, m) == ModuleTotal(t, b, m) + Share(r, m)
            && c.strays == b.strays && u.usage == (t.usage + size) % U32_RANGE && u.peak == Max(t.peak, u.usage)
  {
    var r := AddTrace(t, name, addr, size).1;
    SumPush(if HasSlot(t) then t.recs else b.counted, r, m);
  }

  function UsageOf(modules: seq<Module>, m: nat): nat {
    if m < |modules| then modules[m].usage else 0
  }

  /** The module that is charged is the one that the record names. */
  lemma ChargeFacts(t: Trace, name: Option<string>, addr: int, size: nat, m: nat)
    requires m < |AddTrace(t, name, addr, size).0.modules| && UsageOf(t.modules, m) < U32_RANGE
    ensures var (u, r) := AddTrace(t, name, addr, size);
            && |t.modules| <= |u.modules| <= |t.modules| + 1
            && u.modules[m].usage == (UsageOf(t.modules, m) + Share(r, m)) % U32_RANGE
  {
  }

  lemma AllocKeepsModule(t: Trace, b: Books, name: Option<string>, addr: int, size: nat, m: nat)
    requires Balanced(t, b) && m < |t.modules|
    ensures var (u, c) := AllocStep(t, b, name, addr, size); m < |u.modules| && ModuleFits(u, c, m)
  {
    assert ModuleFits(t, b, m);
    AllocTotals(t, b, name, addr, size, m);
    ChargeFacts(t, name, addr, size, m);
    var (u, c) := AllocStep(t, b, name, addr, size);
    Charged(t, b, u, c, m, Share(AddTrace(t, name, addr, size).1, m));
  }

  /** Usage and total of a module grow together. */
  lemma Charged(t: Trace, b: Books, u: Trace, c: Books, m: nat, share: nat)
    requires m < |t.modules| <= |u.modules| && ModuleFits(t, b, m)
    requires u.modules[m].usage == (t.modules[m].usage + share) % U32_RANGE && StraySum(c, m) == StraySum(b, m)
    requires ModuleTotal(u, c, m) == ModuleTotal(t, b, m) + share
    ensures ModuleFits(u, c, m)
  {
    AddSame(t.modules[m].usage, StraySum(b, m), ModuleTotal(t, b, m), share);
  }

  lemma AllocFitsNewModule(t: Trace, b: Books, name: Option<string>, addr: int, size: nat, m: nat)
    requires Balanced(t, b) && |t.modules| <= m < |AllocStep(t, b, name, addr, size).0.modules|
    ensures var (u, c) := AllocStep(t, b, name, addr, size); ModuleFits(u, c, m)
  {
    AllocTotals(t, b, name, addr, size, m);
    ChargeFacts(t, name, addr, size, m);
    SharesOfNobody(t.recs, |t.modules|, m);
    SharesOfNobody(b.counted, |t.modules|, m);
    SharesOfNobody(b.leaked, |t.modules|, m);
  }

  lemma AllocKeepsIds(t: Trace, b: Books, name: Option<string>, addr: int, size: nat)
    requires Ids(t, b)
    ensures var (u, c) := AllocStep(t, b, name, addr, size); Ids(u, c)
  {
  }

  lemma AllocKeepsBalance(t: Trace, b: Books, name: Option<string>, addr: int, size: nat)
    requires Balanced(t, b)
    ensures var (u, c) := AllocStep(t, b, name, addr, size); Balanced(u, c)
  {
    var (u, c) := AllocStep(t, b, name, addr, size);
    AllocTotals(t, b, name, addr, size, 0);
    AddSame(t.usage, 0, Total(t, b), size);
    forall m | 0 <= m < |u.modules| ensures ModuleFits(u, c, m) {
      if m < |t.modules| {
        AllocKeepsModule(t, b, name, addr, size, m);
      } else {
        AllocFitsNewModule(t, b, name, addr, size, m);
      }
    }
    AllocKeepsIds(t, b, name, addr, size);
  }

  /** The removed record lowers the total of the module that owns it. */
  lemma RemovalSums(t: Trace, b: Books, addr: int, c: Books, m: nat)
    requires Find(t.recs, addr) < |t.recs| && c.counted == b.counted && c.leaked == b.leaked
    ensures ModuleTotal(RemoveTrace(t, addr), c, m) == ModuleTotal(t, b, m) - Share(t.recs[Find(t.recs, addr)], m)
  {
    SumsWithout(t.recs, Find(t.recs, addr), m);
  }

  lemma RemovalKeepsModule(t: Trace, b: Books, addr: int, c: Books, m: nat)
    requires Balanced(t, b) && Find(t.recs, addr) < |t.recs| && m < |t.modules|
    requires c.counted == b.counted && c.leaked == b.leaked
    requires c.strays == StraysAfter(t, b, t.recs[Find(t.recs, addr)])
    ensures var u := RemoveTrace(t, addr); |u.modules| == |t.modules| && ModuleFits(u, c, m)
  {
    assert ModuleFits(t, b, m);
    RemovalSums(t, b, addr, c, m);
    var r := t.recs[Find(t.recs, addr)];
    assert if r.owned then r.id < |t.modules| else r.id == 0;
    Credited(t, b, RemoveTrace(t, addr), c, m, r);
  }

  /** Usage, strays and total of a module move together. */
  lemma Credited(t: Trace, b: Books, u: Trace, c: Books, m: nat, r: Record)
    requires m < |t.modules| == |u.modules| && ModuleFits(t, b, m) && t.cfg.byModule
    requires c.strays == StraysAfter(t, b, r) && (!r.owned ==> r.id == 0)
    requires ModuleTotal(u, c, m) == ModuleTotal(t, b, m) - Share(r, m)
    requires u.modules[m].usage == if r.id == m then Minus(t.modules[m].usage, r.size) else t.modules[m].usage
    ensures ModuleFits(u, c, m)
  {
    if r.id == m {
      SumPush(b.strays, r, 0);
      if r.owned {
        SubSame(t.modules[m].usage, StraySum(b, m), ModuleTotal(t, b, m), r.size);
      } else {
        StraySame(t.modules[m].usage, StraySum(b, m), ModuleTotal(t, b, m), r.size);
      }
    }
  }

  lemma RemovalKeepsBalance(t: Trace, b: Books, addr: int, c: Books)
    requires Balanced(t, b) && Find(t.recs, addr) < |t.recs|
    requires c.counted == b.counted && c.leaked == b.leaked
    requires c.strays == StraysAfter(t, b, t.recs[Find(t.recs, addr)])
    ensures Balanced(RemoveTrace(t, addr), c)
    ensures Total(RemoveTrace(t, addr), c) == Total(t, b) - t.recs[Find(t.recs, addr)].size
  {
    var u, i := RemoveTrace(t, addr), Find(t.recs, addr);
    SumsWithout(t.recs, i, 0);
    SubSame(t.usage, 0, Total(t, b), t.recs[i].size);
    forall m | 0 <= m < |u.modules| ensures ModuleFits(u, c, m) {
      RemovalKeepsModule(t, b, addr, c, m);
    }
  }

  /** Moving a record from `counted` to `leaked` changes no total. */
  lemma LeakKeepsBalance(t: Trace, b: Books, j: nat)
    requires Balanced(t, b) && j < |b.counted|
    ensures var c := b.(counted := SwapRemove(b.counted, j), leaked := b.leaked + [b.counted[j]]);
            Balanced(t, c) && Total(t, c) == Total(t, b)
  {
    var c := b.(counted := SwapRemove(b.counted, j), leaked := b.leaked + [b.counted[j]]);
    SumsWithout(b.counted, j, 0);
    SumPush(b.leaked, b.counted[j], 0);
    forall m | 0 <= m < |t.modules| ensures ModuleFits(t, c, m) {
      assert ModuleFits(t, b, m);
      SumsWithout(b.counted, j, m);
      SumPush(b.leaked, b.counted[j], m);
    }
  }

  lemma ReleaseKeepsBalance(t: Trace, b: Books, addr: int)
    requires Balanced(t, b)
    ensures var (u, c) := ReleaseStep(t, b, addr); Balanced(u, c) && Total(u, c) <= Total(t, b) && u.peak == t.peak
  {
    var (u, c) := ReleaseStep(t, b, addr);
    var i, j, k := Find(t.recs, addr), Find(b.counted, addr), Find(b.orphans, addr);
    if i < |t.recs| {
      RemovalKeepsBalance(t, b, addr, c);
    } else if j < |b.counted| {
      LeakKeepsBalance(t, b, j);
    } else if k < |b.orphans| {
      assert forall m :: 0 <= m < |t.modules| && ModuleFits(t, b, m) ==> ModuleFits(t, c, m);
    }
  }

  lemma FailedKeepsBalance(t: Trace, b: Books, addr: int)
    requires Balanced(t, b)
    ensures var (u, c) := FailedStep(t, b, addr); Balanced(u, c) && Total(u, c) <= Total(t, b) && u.peak == t.peak
  {
    if Find(t.recs, addr) < |t.recs| {
      RemovalKeepsBalance(t, b, addr, FailedStep(t, b, addr).1);
    }
  }

  // ----- runs -----

  lemma AllocKeepsAll(t: Trace, b: Books, live: map<int, Block>, name: Option<string>, addr: int, size: nat)
    requires Places(t, b, live) && Balanced(t, b) && addr !in live
    ensures var (u, c) := AllocStep(t, b, name, addr, size);
            && Places(u, c, live[addr := Block(size, name)]) && Balanced(u, c)
            && Total(u, c) == Total(t, b) + size && u.peak == Max(t.peak, u.usage)
  {
    AllocKeepsPlaces(t, b, live, name, addr, size);
    AllocKeepsBalance(t, b, name, addr, size);
    AllocTotals(t, b, name, addr, size, 0);
  }

  lemma ResizeKeepsAll(t: Trace, b: Books, live: map<int, Block>, name: Option<string>, addr: int, addr': int,
                       size: nat)
    requires Places(t, b, live) && Balanced(t, b) && addr' !in live - {addr}
    ensures var (t1, b1) := ReleaseStep(t, b, addr); var (u, c) := AllocStep(t1, b1, name, addr', size);
            && Places(u, c, (live - {addr})[addr' := Block(size, name)]) && Balanced(u, c)
            && u.peak == Max(t.peak, u.usage)
  {
    var (t1, b1) := ReleaseStep(t, b, addr);
    ReleaseKeepsPlaces(t, b, live, addr);
    ReleaseKeepsBalance(t, b, addr);
    AllocKeepsAll(t1, b1, live - {addr}, name, addr', size);
  }

  /** A step whose peak follows the total, or that does not raise the total. */
  lemma WorldInv(w: World, t: Trace, b: Books, live: map<int, Block>)
    requires Inv(w) && Places(t, b, live) && Balanced(t, b)
    requires t.peak == Max(w.t.peak, t.usage) || (t.peak == w.t.peak && Total(t, b) <= Total(w.t, w.b))
    ensures Inv(World(t, b, live, w.calm && Total(t, b) < U32_RANGE, Max(w.top, t.usage)))
  {
  }

  lemma ResizeKeepsInv(w: World, e: Event)
    requires Inv(w) && Legal(w, e) && e.Resize?
    ensures Inv(Step(w, e))
  {
    if e.new'.Some? {
      if e.old'.Some? {
        ResizeKeepsAll(w.t, w.b, w.live, e.name, e.old'.value, e.new'.value, e.size);
      } else {
        AllocKeepsAll(w.t, w.b, w.live, e.name, e.new'.value, e.size);
      }
    } else if e.old'.Some? {
      if e.size == 0 {
        ReleaseKeepsPlaces(w.t, w.b, w.live, e.old'.value);
        ReleaseKeepsBalance(w.t, w.b, e.old'.value);
      } else {
        FailedKeepsPlaces(w.t, w.b, w.live, e.old'.value);
        FailedKeepsBalance(w.t, w.b, e.old'.value);
      }
    }
    var v := Step(w, e);
    WorldInv(w, v.t, v.b, v.live);
  }

  lemma StepKeepsInv(w: World, e: Event)
    requires Inv(w) && Legal(w, e)
    ensures Inv(Step(w, e))
  {
    match e
    case Alloc(name, addr, size) =>
      AllocKeepsAll(w.t, w.b, w.live, name, addr, size);
      WorldInv(w, Step(w, e).t, Step(w, e).b, Step(w, e).live);
    case Release(addr) =>
      ReleaseKeepsPlaces(w.t, w.b, w.live, addr);
      ReleaseKeepsBalance(w.t, w.b, addr);
      WorldInv(w, Step(w, e).t, Step(w, e).b, Step(w, e).live);
    case Resize(_, _, _, _) => ResizeKeepsInv(w, e);
  }

  const NOTHING := Books([], [], [], [])

  function Begin(cfg: Config): World {
    World(Start(cfg), NOTHING, map[], true, 0)
  }

  ghost predicate Run(ws: seq<World>, events: seq<Event>) {
    && |ws| == |events| + 1 && ws[0] == Begin(ws[0].t.cfg)
    && forall i :: 0 <= i < |events| ==> Legal(ws[i], events[i]) && ws[i + 1] == Step(ws[i], events[i])
  }

  lemma {:induction false} RunKeepsInv(ws: seq<World>, events: seq<Event>, i: nat)
    requires Run(ws, events) && i < |ws|
    ensures Inv(ws[i])
    decreases i
  {
    if i > 0 {
      RunKeepsInv(ws, events, i - 1);
      StepKeepsInv(ws[i - 1], events[i - 1]);
    }
  }
}
