/** The allocation trace when resizing is two steps.  _realloc calls the allocator before it
    takes the trace mutex, so that other threads can allocate, release and resize in between;
    they may even be given the address that the call has just freed, whose old record is still
    in the table. */
module ResizeSteps {
  import opened Bytes
  import opened TraceExact
  import opened TraceRuns
  import opened TraceTable
  import opened Wrappers

  /** A block at its address. */
  datatype Entry = Entry(addr: int, block: Block)

  /** A resize between its allocator call and its mutex section: the block that it was given,
      and what the allocator made of it. */
  datatype Call = Call(name: Option<string>, old': Option<Entry>, new': Option<int>, size: nat)

  /** `live` is what the allocator has handed out; `known` lists the blocks that the trace has
      been told of and not told to forget, which is what it is to hold. */
  datatype Fine = Fine(t: Trace, live: map<int, Block>, calls: seq<Call>, known: seq<Entry>)

  /** `Begun` is the allocator call of a resize and `Ended` the mutex section of the k-th
      pending one.  An allocation and a release are one step each: until the allocating thread
      has told the trace, or once it has told it of the release, no other thread can be given
      that address. */
  datatype Act =
    | Made(name: Option<string>, addr: int, size: nat)
    | Freed(addr: int)
    | Begun(name: Option<string>, old': Option<int>, new': Option<int>, size: nat)
    | Ended(k: nat)

  /** The resize failed and the block lives on. */
  predicate Failed(c: Call) {
    c.old'.Some? && c.new'.None? && c.size != 0
  }

  /** The address that a pending call uses. */
  function Held(c: Call): Option<int> {
    if c.new'.Some? then c.new' else if Failed(c) then Some(c.old'.value.addr) else None
  }

  predicate Busy(calls: seq<Call>, a: int) {
    exists k :: 0 <= k < |calls| && Held(calls[k]) == Some(a)
  }

  /** A pending call has given this address back to the allocator, and its record still stands. */
  predicate Stale(calls: seq<Call>, a: int) {
    exists k :: 0 <= k < |calls| && GaveBack(calls[k], a)
  }

  predicate GaveBack(c: Call, a: int) {
    c.old'.Some? && !Failed(c) && c.old'.value.addr == a
  }

  /** What the allocator guarantees, what a caller owns, and that the debugging trap on size 860
      is not hit. */
  predicate Allowed(f: Fine, e: Act) {
    match e
    case Made(_, addr, size) => addr !in f.live && (HasSlot(f.t) ==> size != TRAP_SIZE)
    case Freed(addr) => !Busy(f.calls, addr) && (addr in f.live || !Stale(f.calls, addr))
    case Begun(_, old', new', size) =>
      && (old'.Some? ==> old'.value in f.live && !Busy(f.calls, old'.value))
      && (new'.Some? && new'.value in f.live ==> new' == old')
    case Ended(k) =>
      k < |f.calls| && (f.calls[k].new'.Some? && HasSlot(Emptied(f, e)) ==> f.calls[k].size != TRAP_SIZE)
  }

  /** The address that remove_trace is called with. */
  function Removes(f: Fine, e: Act): Option<int>
    requires e.Ended? ==> e.k < |f.calls|
  {
    match e
    case Freed(addr) => Some(addr)
    case Ended(k) => if f.calls[k].old'.Some? then Some(f.calls[k].old'.value.addr) else None
    case _ => None
  }

  /** The block that goes. */
  function Goes(f: Fine, e: Act): Option<Entry>
    requires e.Ended? ==> e.k < |f.calls|
  {
    match e
    case Freed(addr) => if addr in f.live then Some(Entry(addr, f.live[addr])) else None
    case Ended(k) => if Failed(f.calls[k]) then None else f.calls[k].old'
    case _ => None
  }

  /** The block that add_trace is told of. */
  function Comes(f: Fine, e: Act): Option<Entry>
    requires e.Ended? ==> e.k < |f.calls|
  {
    match e
    case Made(name, addr, size) => Some(Entry(addr, Block(size, name)))
    case Ended(k) =>
      var c := f.calls[k];
      if c.new'.Some? then Some(Entry(c.new'.value, Block(c.size, c.name))) else None
    case _ => None
  }

  /** The trace once remove_trace has been called. */
  function Emptied(f: Fine, e: Act): Trace
    requires e.Ended? ==> e.k < |f.calls|
  {
    if Removes(f, e).Some? then RemoveTrace(f.t, Removes(f, e).value) else f.t
  }

  /** The trace once add_trace has been called. */
  function Added(u: Trace, c: Option<Entry>): Trace {
    if c.Some? then AddTrace(u, c.value.block.name, c.value.addr, c.value.block.size).0 else u
  }

  function Without<T>(s: seq<T>, k: nat): seq<T>
    requires k < |s|
  {
    s[..k] + s[k + 1..]
  }

  function IndexOf(known: seq<Entry>, e: Entry): (i: nat)
    ensures i <= |known| && (i < |known| ==> known[i] == e) && (e in known ==> i < |known|)
  {
    if known == [] then 0 else if known[0] == e then 0 else 1 + IndexOf(known[1..], e)
  }

  function Forget(known: seq<Entry>, e: Option<Entry>): seq<Entry> {
    if e.Some? && IndexOf(known, e.value) < |known| then Without(known, IndexOf(known, e.value)) else known
  }

  function Tell(known: seq<Entry>, e: Option<Entry>): seq<Entry> {
    if e.Some? then known + [e.value] else known
  }

  function Take(f: Fine, e: Act): Fine
    requires Allowed(f, e)
  {
    var t := Added(Emptied(f, e), Comes(f, e));
    var known := Tell(Forget(f.known, Goes(f, e)), Comes(f, e));
    match e
    case Made(name, addr, size) => Fine(t, f.live[addr := Block(size, name)], f.calls, known)
    case Freed(addr) => Fine(t, f.live - {addr}, f.calls, known)
    case Begun(name, old', new', size) =>
      var c := Call(name, if old'.Some? then Some(Entry(old'.value, f.live[old'.value])) else None, new', size);
      Fine(t, LiveAfter(f.live, Resize(name, old', new', size)), f.calls + [c], known)
    case Ended(k) => Fine(t, f.live, Without(f.calls, k), known)
  }

  function Fresh(cfg: Config): Fine {
    Fine(Start(cfg), map[], [], [])
  }

  ghost predicate FineRun(fs: seq<Fine>, es: seq<Act>) {
    && |fs| == |es| + 1 && fs[0] == Fresh(fs[0].t.cfg)
    && forall i :: 0 <= i < |es| ==> StepAt(fs, es, i)
  }

  predicate StepAt(fs: seq<Fine>, es: seq<Act>, i: nat)
    requires i < |es| && i + 1 < |fs|
  {
    Allowed(fs[i], es[i]) && fs[i + 1] == Take(fs[i], es[i])
  }

  // ----- what the trace is to hold -----

  /** How often a list names an element. */
  function Times<T(==)>(s: seq<T>, e: T): nat {
    if s == [] then 0 else (if s[0] == e then 1 else 0) + Times(s[1..], e)
  }

  /** How many pending calls have given back this block. */
  function OldTimes(calls: seq<Call>, e: Entry): nat {
    if calls == [] then 0 else OldTime(calls[0], e) + OldTimes(calls[1..], e)
  }

  function OldTime(c: Call, e: Entry): nat {
    if c.old' == Some(e) && !Failed(c) then 1 else 0
  }

  /** The addresses that pending calls have been given. */
  function News(calls: seq<Call>): set<int> {
    set k | 0 <= k < |calls| && calls[k].new'.Some? :: calls[k].new'.value
  }

  lemma {:induction false} TimesAppend<T>(a: seq<T>, b: seq<T>, e: T)
    ensures Times(a + b, e) == Times(a, e) + Times(b, e)
  {
    if a == [] {
      assert a + b == b;
    } else {
      TimesAppend(a[1..], b, e);
      assert (a + b)[1..] == a[1..] + b;
    }
  }

  lemma TimesOne<T>(e: T, x: T)
    ensures Times([e], x) == if e == x then 1 else 0
  {
    assert [e][1..] == [];
  }

  lemma TimesWithout<T>(s: seq<T>, k: nat, x: T)
    requires k < |s|
    ensures Times(Without(s, k), x) == Times(s, x) - if s[k] == x then 1 else 0
  {
    assert s == s[..k] + ([s[k]] + s[k + 1..]);
    TimesAppend(s[..k], [s[k]] + s[k + 1..], x);
    TimesAppend([s[k]], s[k + 1..], x);
    TimesAppend(s[..k], s[k + 1..], x);
    TimesOne(s[k], x);
  }

  lemma {:induction false} OldTimesAppend(a: seq<Call>, b: seq<Call>, e: Entry)
    ensures OldTimes(a + b, e) == OldTimes(a, e) + OldTimes(b, e)
  {
    if a == [] {
      assert a + b == b;
    } else {
      OldTimesAppend(a[1..], b, e);
      assert (a + b)[1..] == a[1..] + b;
    }
  }

  lemma OldTimesOne(c: Call, e: Entry)
    ensures OldTimes([c], e) == OldTime(c, e)
  {
    assert [c][1..] == [];
  }

  lemma OldTimesWithout(calls: seq<Call>, k: nat, e: Entry)
    requires k < |calls|
    ensures OldTimes(calls, e) == OldTime(calls[k], e) + OldTimes(Without(calls, k), e)
  {
    assert calls == calls[..k] + ([calls[k]] + calls[k + 1..]);
    OldTimesAppend(calls[..k], [calls[k]] + calls[k + 1..], e);
    OldTimesAppend([calls[k]], calls[k + 1..], e);
    OldTimesAppend(calls[..k], calls[k + 1..], e);
    OldTimesOne(calls[k], e);
  }

  lemma {:induction false} Named(known: seq<Entry>, e: Entry)
    ensures Times(known, e) > 0 <==> e in known
  {
    if known != [] {
      Named(known[1..], e);
      assert known == [known[0]] + known[1..];
    }
  }

  lemma ForgetOne(known: seq<Entry>, e: Entry, x: Entry)
    requires e in known
    ensures Times(Forget(known, Some(e)), x) == Times(known, x) - if e == x then 1 else 0
  {
    TimesWithout(known, IndexOf(known, e), x);
  }

  function LiveTimes(live: map<int, Block>, e: Entry): nat {
    if e.addr in live && live[e.addr] == e.block then 1 else 0
  }

  /** What the trace is to hold: the blocks that the allocator has handed out, except those of
      which a pending resize has not yet told, and with those that one has yet to take out. */
  ghost predicate Meant(f: Fine) {
    forall e :: MeantFor(f, e)
  }

  predicate MeantFor(f: Fine, e: Entry) {
    Times(f.known, e) == LiveTimes(f.live - News(f.calls), e) + OldTimes(f.calls, e)
  }

  /** No two pending calls use the same address, and what they use stays theirs. */
  predicate HeldApart(f: Fine) {
    && (forall j, k :: 0 <= j < k < |f.calls| && Held(f.calls[j]).Some? ==> Held(f.calls[j]) != Held(f.calls[k]))
    && (forall k :: 0 <= k < |f.calls| ==> HeldLive(f.live, f.calls[k]))
  }

  predicate HeldLive(live: map<int, Block>, c: Call) {
    && (c.new'.Some? ==> c.new'.value in live && live[c.new'.value] == Block(c.size, c.name))
    && (Failed(c) ==> c.old'.value.addr in live && live[c.old'.value.addr] == c.old'.value.block)
  }

  ghost predicate FineInv(f: Fine) {
    Meant(f) && HeldApart(f)
  }

  lemma NotBusyIsNotNew(calls: seq<Call>, a: int)
    requires !Busy(calls, a)
    ensures a !in News(calls)
  {
    assert forall k :: 0 <= k < |calls| ==> Held(calls[k]) != Some(a);
  }

  lemma NewsAreLive(f: Fine, a: int)
    requires HeldApart(f) && a in News(f.calls)
    ensures a in f.live
  {
    var k :| 0 <= k < |f.calls| && f.calls[k].new' == Some(a);
    assert HeldLive(f.live, f.calls[k]);
  }

  lemma NewsAppend(calls: seq<Call>, c: Call)
    ensures News(calls + [c]) == News(calls) + if c.new'.Some? then {c.new'.value} else {}
  {
    var all := calls + [c];
    assert all[|calls|] == c && forall k :: 0 <= k < |calls| ==> all[k] == calls[k];
  }

  lemma NewsWithout(calls: seq<Call>, k: nat)
    requires k < |calls|
    ensures News(calls) == News(Without(calls, k)) + if calls[k].new'.Some? then {calls[k].new'.value} else {}
  {
    var w := Without(calls, k);
    forall a | a in News(calls) && calls[k].new' != Some(a) ensures a in News(w) {
      var j :| 0 <= j < |calls| && calls[j].new' == Some(a);
      assert w[if j < k then j else j - 1] == calls[j];
    }
    forall a | a in News(w) ensures a in News(calls) {
      var j :| 0 <= j < |w| && w[j].new' == Some(a);
      assert w[j] == calls[if j < k then j else j + 1];
    }
  }

  lemma NewsApart(f: Fine, k: nat)
    requires HeldApart(f) && k < |f.calls| && f.calls[k].new'.Some?
    ensures f.calls[k].new'.value !in News(Without(f.calls, k))
  {
    var w := Without(f.calls, k);
    forall j | 0 <= j < |w| ensures w[j].new' != f.calls[k].new' {
      var i := if j < k then j else j + 1;
      assert w[j] == f.calls[i] && Held(f.calls[i]) != Held(f.calls[k]);
    }
  }

  /** The block that goes is one that the trace is to hold. */
  lemma GoesIsKnown(f: Fine, e: Act)
    requires FineInv(f) && Allowed(f, e) && Goes(f, e).Some?
    ensures Goes(f, e).value in f.known
  {
    var g := Goes(f, e).value;
    assert MeantFor(f, g);
    Named(f.known, g);
    match e
    case Freed(addr) => NotBusyIsNotNew(f.calls, addr);
    case Ended(k) => OldTimesWithout(f.calls, k, g);
  }

  lemma MadeKeepsMeant(f: Fine, e: Act, x: Entry)
    requires FineInv(f) && Allowed(f, e) && e.Made?
    ensures MeantFor(Take(f, e), x)
  {
    assert MeantFor(f, x);
    if e.addr in News(f.calls) {
      NewsAreLive(f, e.addr);
    }
    var c := Comes(f, e).value;
    TimesAppend(f.known, [c], x);
    TimesOne(c, x);
  }

  lemma FreedKeepsMeant(f: Fine, e: Act, x: Entry)
    requires FineInv(f) && Allowed(f, e) && e.Freed?
    ensures MeantFor(Take(f, e), x)
  {
    assert MeantFor(f, x);
    NotBusyIsNotNew(f.calls, e.addr);
    if Goes(f, e).Some? {
      GoesIsKnown(f, e);
      ForgetOne(f.known, Goes(f, e).value, x);
    }
  }

  lemma BegunKeepsMeant(f: Fine, e: Act, x: Entry)
    requires FineInv(f) && Allowed(f, e) && e.Begun?
    ensures MeantFor(Take(f, e), x)
  {
    var c := Take(f, e).calls[|f.calls|];
    assert MeantFor(f, x);
    NewsAppend(f.calls, c);
    OldTimesAppend(f.calls, [c], x);
    OldTimesOne(c, x);
    if e.old'.Some? {
      NotBusyIsNotNew(f.calls, e.old'.value);
    }
  }

  lemma EndedKeepsMeant(f: Fine, e: Act, x: Entry)
    requires FineInv(f) && Allowed(f, e) && e.Ended?
    ensures MeantFor(Take(f, e), x)
  {
    var c := f.calls[e.k];
    assert MeantFor(f, x) && HeldLive(f.live, c);
    OldTimesWithout(f.calls, e.k, x);
    NewsWithout(f.calls, e.k);
    var known := Forget(f.known, Goes(f, e));
    if Goes(f, e).Some? {
      GoesIsKnown(f, e);
      ForgetOne(f.known, Goes(f, e).value, x);
    }
    if c.new'.Some? {
      NewsApart(f, e.k);
      TimesAppend(known, [Comes(f, e).value], x);
      TimesOne(Comes(f, e).value, x);
    }
  }

  lemma HeldStaysApart(f: Fine, e: Act)
    requires HeldApart(f) && Allowed(f, e)
    ensures HeldApart(Take(f, e))
  {
    var g := Take(f, e);
    match e
    case Ended(k) =>
      forall j | 0 <= j < |g.calls| ensures g.calls[j] == f.calls[if j < k then j else j + 1] {
      }
    case Begun(_, old', new', _) =>
      forall j | 0 <= j < |f.calls|
        ensures g.calls[j] == f.calls[j] && HeldLive(g.live, f.calls[j])
        ensures Held(f.calls[j]).Some? ==> Held(f.calls[j]) != Held(g.calls[|f.calls|])
      {
        assert HeldLive(f.live, f.calls[j]);
        assert old'.Some? ==> Held(f.calls[j]) != old';
      }
    case Freed(addr) =>
      forall j | 0 <= j < |f.calls| ensures HeldLive(g.live, f.calls[j]) {
        assert HeldLive(f.live, f.calls[j]) && Held(f.calls[j]) != Some(addr);
      }
    case Made(_, _, _) =>
      forall j | 0 <= j < |f.calls| ensures HeldLive(g.live, f.calls[j]) {
        assert HeldLive(f.live, f.calls[j]);
      }
  }

  lemma ActKeepsInv(f: Fine, e: Act)
    requires FineInv(f) && Allowed(f, e)
    ensures FineInv(Take(f, e))
  {
    HeldStaysApart(f, e);
    forall x ensures MeantFor(Take(f, e), x) {
      match e
      case Made(_, _, _) => MadeKeepsMeant(f, e, x);
      case Freed(_) => FreedKeepsMeant(f, e, x);
      case Begun(_, _, _, _) => BegunKeepsMeant(f, e, x);
      case Ended(_) => EndedKeepsMeant(f, e, x);
    }
  }

  /** In every state of every run the reference is what the allocator has handed out, up to the
      resizes that are pending; when none is, it lists every live block once and nothing else. */
  lemma {:induction false} RunMeans(fs: seq<Fine>, es: seq<Act>, i: nat)
    requires FineRun(fs, es) && i < |fs|
    ensures FineInv(fs[i])
    ensures fs[i].calls == [] ==> forall e :: Times(fs[i].known, e) == LiveTimes(fs[i].live, e)
    decreases i
  {
    if i == 0 {
      forall e ensures MeantFor(fs[0], e) {
      }
    } else {
      RunMeans(fs, es, i - 1);
      assert StepAt(fs, es, i - 1);
      ActKeepsInv(fs[i - 1], es[i - 1]);
    }
    if fs[i].calls == [] {
      forall e ensures Times(fs[i].known, e) == LiveTimes(fs[i].live, e) {
        assert MeantFor(fs[i], e) && News([]) == {};
      }
    }
  }
}
