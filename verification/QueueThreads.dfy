/** The data queue under concurrency: one writer (write_lock admits only one), one reader,
    one flusher and one waker, interleaved at every lock, unlock, bit operation and memory
    access.  Each thread is a program counter; what it does while it holds the lock is the
    function of QueueLayout that also specifies the sequential methods.  Waiting is not
    atomic: a wait that sees its bit and the clearing of that bit are two steps. */
module QueueThreads {
  import opened Bytes
  import opened QueueLayout
  import opened Wrappers

  datatype Writer =
    | WIdle
    | WEnter(n: nat)           // get_buffer(n): wants the lock
    | WTry(n: nat)             // holds the lock, at the top of the loop
    | WWait(n: nat)            // parked on the CONSUME bit
    | WClear(n: nat)           // saw the bit, has not cleared it yet
    | WRelock(n: nat)
    | WWoken(n: nat)           // holds the lock again
    | WHold(n: nat)            // owns a reservation, filling it
    | WSubmit(n: nat, m: nat)  // send_buffer(m): wants the lock
    | WSend(n: nat, m: nat)    // holds the lock
    | WNotify                  // holds the lock, block queued, ARRIVE bit not set yet
    | WRelease                 // bit set, about to free the user and the lock

  datatype Reader =
    | RIdle
    | REnter                                     // read_lock: wants the lock
    | RTry
    | RWait                                      // parked on the ARRIVE bit
    | RClear
    | RRelock
    | RWoken
    | RHold(at: int, size: int)                  // looking at the front block
    | RFinish(at: int, size: int, keep: bool)    // read_unlock or (keep) peek_unlock: wants the lock
    | RUnlock(at: int, size: int, keep: bool)    // holds the lock
    | RNotify                                    // block dropped, CONSUME bit not set yet
    | RRelease

  datatype Flusher = FIdle | FLoop | FNotify | FTrapped

  datatype Waker = KIdle | KSet | KArrive | KConsume | KCheck | KWait | KClear | KRelock | KDone

  datatype Owner = Free | OfWriter | OfReader | OfFlusher | OfWaker

  /** The lock and the event bits. */
  datatype Sync = Sync(lock: Owner, arrive: bool, consume: bool, free: bool)

  /** `sent` lists the blocks ever sent, `out` those that left the queue; `silent` tells
      whether a peek_unlock has dropped its user since the waker last looked. */
  datatype Log = Log(sent: seq<Block>, out: seq<Block>, silent: bool)

  datatype Sys = Sys(q: Queue, c: Sync, w: Writer, r: Reader, f: Flusher, k: Waker, log: Log)

  // ----- the steps -----

  ghost predicate Start(s: Sys) {
    && s.q == Init(s.q.buf) && |s.q.buf| <= I32_MAX
    && s.c.lock == Free && !s.c.arrive && !s.c.consume && !s.c.free && !s.log.silent
    && s.w == WIdle && s.r == RIdle && s.f == FIdle && s.k == KIdle
    && s.log.sent == [] && s.log.out == []
  }

  function AddUser(q: Queue, d: int): Queue {
    q.(user := q.user + d)
  }

  ghost predicate WriterStep(s: Sys, t: Sys)
    requires Pointers(s.q)
  {
    match s.w
    case WIdle => t.w.WEnter? && t == s.(w := t.w)
    case WEnter(n) =>
      if n + HEAD > |s.q.buf| then t == s.(w := WIdle)
      else s.c.lock == Free && t == s.(w := WTry(n), c := s.c.(lock := OfWriter))
    case WTry(n) =>
      if s.q.quit then t == s.(w := WIdle, c := s.c.(lock := Free))
      else if Granted(s.q, n) then t == s.(q := Reserve(s.q, n), w := WHold(n), c := s.c.(lock := Free))
      else t == s.(q := Reserve(s.q, n), w := WWait(n), c := s.c.(lock := Free))
    case WWait(n) => s.c.consume && t == s.(w := WClear(n))
    case WClear(n) => t == s.(w := WRelock(n), c := s.c.(consume := false))
    case WRelock(n) => s.c.lock == Free && t == s.(w := WWoken(n), c := s.c.(lock := OfWriter))
    case WWoken(n) =>
      if s.q.quit then t == s.(q := AddUser(s.q, -1), w := WIdle, c := s.c.(free := true, lock := Free))
      else t == s.(q := AddUser(s.q, -1), w := WTry(n), c := s.c.(free := true))
    case WHold(n) =>
      || (t.w.WSubmit? && t.w.n == n && t.w.m + HEAD <= I32_MAX && t == s.(w := t.w))
      || (t == s.(q := s.q.(buf := t.q.buf)) && WritesPayload(s.q, n, t.q.buf))
    case WSubmit(n, m) => s.c.lock == Free && t == s.(w := WSend(n, m), c := s.c.(lock := OfWriter))
    case WSend(n, m) =>
      if m == 0 || !CanSend(s.q, m) then t == s.(q := Send(s.q, m), w := WIdle, c := s.c.(free := true, lock := Free))
      else t == s.(q := Send(s.q, m), w := WNotify, log := s.log.(sent := s.log.sent + Sent(s.q, m)))
    case WNotify => t == s.(w := WRelease, c := s.c.(arrive := true))
    case WRelease => t == s.(w := WIdle, c := s.c.(free := true, lock := Free))
  }

  /** Any write inside the payload of the reservation. */
  ghost predicate WritesPayload(q: Queue, n: nat, buf: seq<Byte>) {
    && |buf| == |q.buf|
    && forall i :: 0 <= i < |buf| && !(q.wp + HEAD <= i < q.wp + HEAD + n) ==> buf[i] == q.buf[i]
  }

  ghost predicate ReaderStep(s: Sys, t: Sys)
    requires Pointers(s.q)
  {
    match s.r
    case RIdle => t == s.(r := REnter)
    case REnter => s.c.lock == Free && t == s.(r := RTry, c := s.c.(lock := OfReader))
    case RTry =>
      if s.q.quit then t == s.(r := RIdle, c := s.c.(lock := Free))
      else if s.q.filled == 0 then t == s.(q := AddUser(s.q, 1), r := RWait, c := s.c.(lock := Free))
      else
        var at := ReadPos(s.q);
        && 0 <= at && at + HEAD <= |s.q.buf|
        && t == s.(q := ReadLock(s.q), r := RHold(at + HEAD, Header(s.q.buf, at) - HEAD), c := s.c.(lock := Free))
    case RWait => s.c.arrive && t == s.(r := RClear)
    case RClear => t == s.(r := RRelock, c := s.c.(arrive := false))
    case RRelock => s.c.lock == Free && t == s.(r := RWoken, c := s.c.(lock := OfReader))
    case RWoken =>
      if s.q.quit then t == s.(q := AddUser(s.q, -1), r := RIdle, c := s.c.(free := true, lock := Free))
      else t == s.(q := AddUser(s.q, -1), r := RTry, c := s.c.(free := true))
    case RHold(at, size) => t.r.RFinish? && t == s.(r := RFinish(at, size, t.r.keep))
    case RFinish(at, size, keep) =>
      s.c.lock == Free && t == s.(r := RUnlock(at, size, keep), c := s.c.(lock := OfReader))
    case RUnlock(at, size, keep) =>
      if keep then t == s.(q := PeekUnlock(s.q), r := RIdle, c := s.c.(lock := Free), log := s.log.(silent := true))
      else if HaveData(s.q) then
        && 0 <= at <= at + size <= |s.q.buf| && s.q.rp + HEAD <= |s.q.buf|
        && t == s.(q := ReadUnlock(s.q), r := RNotify, log := s.log.(out := s.log.out + [s.q.buf[at..at + size]]))
      else t == s.(r := RIdle, c := s.c.(lock := Free))
    case RNotify => t == s.(r := RRelease, c := s.c.(consume := true))
    case RRelease => t == s.(r := RIdle, c := s.c.(free := true, lock := Free))
  }

  predicate ReaderHolds(r: Reader) {
    r.RHold? || r.RFinish? || r.RUnlock?
  }

  /** consume_all; it is not started while the reader is looking at a block. */
  ghost predicate FlusherStep(s: Sys, t: Sys)
    requires Pointers(s.q)
  {
    match s.f
    case FIdle => s.c.lock == Free && !ReaderHolds(s.r) && t == s.(f := FLoop, c := s.c.(lock := OfFlusher))
    case FLoop =>
      if !HaveData(s.q) || s.q.quit then t == s.(f := FIdle, c := s.c.(lock := Free))
      else
        && s.q.rp + HEAD <= |s.q.buf|
        && var len := Header(s.q.buf, s.q.rp);
           if len >= |s.q.buf| then t == s.(f := FTrapped)
           else
             && HEAD <= len && s.q.rp + len <= |s.q.buf|
             && t == s.(q := Pop(s.q), f := FNotify,
                        log := s.log.(out := s.log.out + [s.q.buf[s.q.rp + HEAD..s.q.rp + len]]))
    case FNotify => t == s.(f := FLoop, c := s.c.(consume := true))
    case FTrapped => false
  }

  ghost predicate WakerStep(s: Sys, t: Sys) {
    match s.k
    case KIdle => s.c.lock == Free && t == s.(k := KSet, c := s.c.(lock := OfWaker))
    case KSet => t == s.(q := s.q.(quit := true), k := KArrive)
    case KArrive => t == s.(k := KConsume, c := s.c.(arrive := true))
    case KConsume => t == s.(k := KCheck, c := s.c.(consume := true))
    case KCheck =>
      if s.q.user != 0 then t == s.(k := KWait, c := s.c.(lock := Free), log := s.log.(silent := false))
      else t == s.(k := KDone, c := s.c.(lock := Free))
    case KWait => s.c.free && t == s.(k := KClear)
    case KClear => t == s.(k := KRelock, c := s.c.(free := false))
    case KRelock => s.c.lock == Free && t == s.(k := KCheck, c := s.c.(lock := OfWaker))
    case KDone => false
  }

  ghost predicate Next(s: Sys, t: Sys)
    requires Pointers(s.q)
  {
    WriterStep(s, t) || ReaderStep(s, t) || FlusherStep(s, t) || WakerStep(s, t)
  }

  // ----- the invariant -----

  predicate WLocked(w: Writer) {
    w.WTry? || w.WWoken? || w.WSend? || w.WNotify? || w.WRelease?
  }

  predicate RLocked(r: Reader) {
    r.RTry? || r.RWoken? || r.RUnlock? || r.RNotify? || r.RRelease?
  }

  predicate KLocked(k: Waker) {
    k.KSet? || k.KArrive? || k.KConsume? || k.KCheck?
  }

  function WUsers(w: Writer): int {
    if w.WWait? || w.WClear? || w.WRelock? || w.WWoken? || w.WHold? || w.WSubmit? || w.WSend? then 1 else 0
  }

  function RUsers(r: Reader): int {
    if r.RWait? || r.RClear? || r.RRelock? || r.RWoken? || ReaderHolds(r) then 1 else 0
  }

  /** The lock has the owner that the program counters say. */
  predicate LockInv(s: Sys) {
    && (WLocked(s.w) <==> s.c.lock == OfWriter)
    && (RLocked(s.r) <==> s.c.lock == OfReader)
    && (!s.f.FIdle? <==> s.c.lock == OfFlusher)
    && (!s.f.FIdle? ==> !ReaderHolds(s.r))
    && (KLocked(s.k) <==> s.c.lock == OfWaker)
  }

  predicate WriterHolds(w: Writer) {
    w.WHold? || w.WSubmit? || w.WSend?
  }

  predicate WantsSpace(w: Writer) {
    w.WTry? || w.WWait? || w.WClear? || w.WRelock? || w.WWoken? || WriterHolds(w)
  }

  /** The bytes: layout, reservation, the reader's view, and the FIFO law. */
  ghost predicate DataInv(s: Sys) {
    && QueueLayout.Valid(s.q)
    && (WantsSpace(s.w) ==> s.w.n + HEAD <= |s.q.buf|)
    && (WriterHolds(s.w) ==> Reserved(s.q, s.w.n))
    && (s.w.WSubmit? || s.w.WSend? ==> s.w.m + HEAD <= I32_MAX)
    && (ReaderHolds(s.r) ==> Viewing(s.q, s.r.at, s.r.size))
    && s.log.sent == s.log.out + Contents(s.q)
  }

  /** The reader's pointer and size denote the front block. */
  predicate Viewing(q: Queue, at: int, size: int) {
    && 0 <= q.rp && q.rp + HEAD <= |q.buf| && HaveData(q)
    && at == q.rp + HEAD && size == Header(q.buf, q.rp) - HEAD
  }

  /** The writer is parked for a reason that still holds. */
  predicate WriterBlocked(s: Sys)
    requires s.w.WWait?
  {
    !s.q.quit && s.q.fillEnd != 0 && Avail(s.q) < s.w.n + HEAD
  }

  /** `user` counts the parked threads and the held blocks. */
  predicate UserInv(s: Sys) {
    && s.q.user == WUsers(s.w) + RUsers(s.r)
    && (s.q.quit <==> !s.k.KIdle? && !s.k.KSet?)
  }

  /** A writer parked with its bit clear waits for a reason, or someone holding the lock
      is just about to set the bit. */
  predicate WriterParkInv(s: Sys) {
    s.w.WWait? && !s.c.consume ==>
      WriterBlocked(s) || s.r.RNotify? || s.f.FNotify? || s.k.KArrive? || s.k.KConsume?
  }

  predicate ReaderParkInv(s: Sys) {
    s.r.RWait? && !s.c.arrive ==> (!s.q.quit && s.q.filled == 0) || s.w.WNotify? || s.k.KArrive?
  }

  predicate WakerParkInv(s: Sys) {
    s.k.KWait? && !s.c.free ==>
      s.q.user > 0 || s.log.silent || s.w.WNotify? || s.w.WRelease? || s.r.RNotify? || s.r.RRelease?
  }

  predicate SyncInv(s: Sys) {
    UserInv(s) && WriterParkInv(s) && ReaderParkInv(s) && WakerParkInv(s)
  }

  ghost predicate Inv(s: Sys) {
    LockInv(s) && DataInv(s) && SyncInv(s)
  }

  // ----- every step keeps the invariant -----

  lemma StartInv(s: Sys)
    requires Start(s)
    ensures Inv(s)
  {
    assert Blocks(s.q.buf, 0, 0) == [];
  }

  /** Only the user count or the quit flag differs: the data part carries over. */
  lemma SameLayout(q: Queue, p: Queue)
    requires QueueLayout.Valid(q) && p == q.(user := p.user, quit := p.quit)
    ensures QueueLayout.Valid(p) && Contents(p) == Contents(q)
  {
  }

  /** A step that moves only program counters, bits or the lock. */
  lemma QuietData(s: Sys, t: Sys)
    requires DataInv(s) && (t.q == s.q || t.q == s.q.(user := t.q.user, quit := t.q.quit))
    requires t.log.sent == s.log.sent && t.log.out == s.log.out
    requires WantsSpace(t.w) ==> t.w.n + HEAD <= |s.q.buf|
    requires WriterHolds(t.w) ==> Reserved(s.q, t.w.n)
    requires t.w.WSubmit? || t.w.WSend? ==> t.w.m + HEAD <= I32_MAX
    requires ReaderHolds(t.r) ==> Viewing(s.q, t.r.at, t.r.size)
    ensures DataInv(t)
  {
    SameLayout(s.q, t.q);
  }

  lemma WriterKeepsData(s: Sys, t: Sys)
    requires DataInv(s) && WriterStep(s, t)
    ensures DataInv(t)
  {
    if s.w.WTry? && !s.q.quit {
      WriterReserves(s, t, s.w.n);
    } else if s.w.WHold? && !t.w.WSubmit? {
      WriterFills(s, t, s.w.n);
    } else if s.w.WSend? {
      WriterSends(s, t, s.w.m);
    } else {
      WriterQuiet(s, t);
    }
  }

  lemma WriterQuiet(s: Sys, t: Sys)
    requires DataInv(s) && WriterStep(s, t) && !s.w.WSend?
    requires s.w.WTry? ==> s.q.quit
    requires s.w.WHold? ==> t.w.WSubmit?
    ensures DataInv(t)
  {
    QuietData(s, t);
  }

  lemma WriterReserves(s: Sys, t: Sys, n: nat)
    requires DataInv(s) && s.w == WTry(n) && t.q == Reserve(s.q, n)
    requires t.w == if Granted(s.q, n) then WHold(n) else WWait(n)
    requires t.r == s.r && t.log.sent == s.log.sent && t.log.out == s.log.out
    ensures DataInv(t)
  {
    var w := Wrap(s.q, n + HEAD);
    WrapKeeps(s.q, n + HEAD);
    SameLayout(w, t.q);
    EmptyTests(s.q);
    EmptyTests(t.q);
  }

  lemma WriterFills(s: Sys, t: Sys, n: nat)
    requires DataInv(s) && s.w == WHold(n) && t == s.(q := s.q.(buf := t.q.buf)) && WritesPayload(s.q, n, t.q.buf)
    ensures DataInv(t)
  {
    ReservationIsDisjoint(s.q, n, t.q.buf);
    if ReaderHolds(s.r) {
      FrontHeader(s.q);
      SameSlice(s.q.buf, t.q.buf, s.q.rp, s.q.rp + HEAD);
    }
  }

  /** A send does not touch the block that the reader looks at. */
  lemma SendKeepsView(q: Queue, m: nat, at: int, size: int)
    requires QueueLayout.Valid(q) && Viewing(q, at, size)
    ensures Viewing(Send(q, m), at, size)
  {
    FrontHeader(q);
    SameSlice(q.buf, Send(q, m).buf, q.rp, q.rp + HEAD);
  }

  lemma WriterSends(s: Sys, t: Sys, m: nat)
    requires DataInv(s) && s.w.WSend? && s.w.m == m && t.q == Send(s.q, m) && !WantsSpace(t.w) && !t.w.WSubmit?
    requires t.r == s.r && t.log.sent == s.log.sent + Sent(s.q, m) && t.log.out == s.log.out
    ensures DataInv(t)
  {
    SendAppends(s.q, m);
    Associative(s.log.out, Contents(s.q), Sent(s.q, m));
    if ReaderHolds(s.r) {
      SendKeepsView(s.q, m, s.r.at, s.r.size);
    }
  }

  /** Dropping the front block moves it from the contents to `out`. */
  lemma FrontLeaves(s: Sys, t: Sys)
    requires DataInv(s) && HaveData(s.q) && t.log.sent == s.log.sent
    requires s.q.rp + HEAD <= |s.q.buf| && t.q == Pop(s.q).(user := t.q.user)
    requires Contents(s.q) != [] && t.log.out == s.log.out + [Contents(s.q)[0]]
    requires t.w == s.w && !ReaderHolds(t.r)
    ensures DataInv(t)
  {
    PopDropsFront(s.q);
    PopKeepsSpace(s.q);
    SameLayout(Pop(s.q), t.q);
    var all := Contents(s.q);
    assert all == [all[0]] + all[1..];
    Associative(s.log.out, [all[0]], all[1..]);
  }

  lemma ReaderKeepsData(s: Sys, t: Sys)
    requires DataInv(s) && ReaderStep(s, t)
    ensures DataInv(t)
  {
    if s.r.RUnlock? {
      ReaderFinishes(s, t);
    } else if s.r.RTry? {
      ReaderLooks(s, t);
    } else {
      ReaderQuiet(s, t);
    }
  }

  lemma ReaderQuiet(s: Sys, t: Sys)
    requires DataInv(s) && ReaderStep(s, t) && !s.r.RUnlock? && !s.r.RTry?
    ensures DataInv(t)
  {
    QuietData(s, t);
  }

  lemma ReaderFinishes(s: Sys, t: Sys)
    requires DataInv(s) && ReaderStep(s, t) && s.r.RUnlock?
    ensures DataInv(t)
  {
    if s.r.keep {
      QuietData(s, t);
    } else {
      FrontHeader(s.q);
      FrontLeaves(s, t);
    }
  }

  lemma ReaderLooks(s: Sys, t: Sys)
    requires DataInv(s) && s.r.RTry? && ReaderStep(s, t)
    ensures DataInv(t)
  {
    if s.q.quit || s.q.filled == 0 {
      QuietData(s, t);
    } else {
      EmptyTests(s.q);
      FrontHeader(s.q);
      assert t.q == s.q.(user := t.q.user) && t.log.sent == s.log.sent && t.log.out == s.log.out && t.w == s.w;
      assert Viewing(s.q, t.r.at, t.r.size);
      QuietData(s, t);
    }
  }

  lemma FlusherKeepsData(s: Sys, t: Sys)
    requires DataInv(s) && LockInv(s) && FlusherStep(s, t)
    ensures DataInv(t)
  {
    if t.f.FNotify? {
      FrontHeader(s.q);
      FrontLeaves(s, t);
    } else {
      QuietData(s, t);
    }
  }

  lemma WriterKeepsUserInv(s: Sys, t: Sys)
    requires Pointers(s.q) && UserInv(s) && WriterStep(s, t)
    requires WantsSpace(s.w) ==> s.w.n + HEAD <= |s.q.buf|
    ensures UserInv(t)
  {
  }

  lemma WriterKeepsSync(s: Sys, t: Sys)
    requires Pointers(s.q) && LockInv(s) && SyncInv(s) && WriterStep(s, t)
    requires WantsSpace(s.w) ==> s.w.n + HEAD <= |s.q.buf|
    ensures LockInv(t) && SyncInv(t)
  {
    WriterKeepsUserInv(s, t);
  }

  lemma ReaderKeepsUserInv(s: Sys, t: Sys)
    requires Pointers(s.q) && UserInv(s) && ReaderStep(s, t)
    requires ReaderHolds(s.r) ==> HaveData(s.q)
    ensures UserInv(t)
  {
  }

  lemma ReaderKeepsWriterParkInv(s: Sys, t: Sys)
    requires Pointers(s.q) && LockInv(s) && SyncInv(s) && ReaderStep(s, t)
    requires ReaderHolds(s.r) ==> HaveData(s.q)
    ensures WriterParkInv(t)
  {
  }

  lemma ReaderKeepsWakerParkInv(s: Sys, t: Sys)
    requires Pointers(s.q) && LockInv(s) && SyncInv(s) && ReaderStep(s, t)
    requires ReaderHolds(s.r) ==> HaveData(s.q)
    ensures WakerParkInv(t)
  {
  }

  lemma ReaderKeepsSync(s: Sys, t: Sys)
    requires Pointers(s.q) && LockInv(s) && SyncInv(s) && ReaderStep(s, t)
    requires ReaderHolds(s.r) ==> HaveData(s.q)
    ensures LockInv(t) && SyncInv(t)
  {
    ReaderKeepsUserInv(s, t);
    ReaderKeepsWriterParkInv(s, t);
    ReaderKeepsWakerParkInv(s, t);
  }

  lemma WakerKeepsSync(s: Sys, t: Sys)
    requires LockInv(s) && SyncInv(s) && WakerStep(s, t)
    ensures LockInv(t) && SyncInv(t)
  {
  }

  lemma WriterKeeps(s: Sys, t: Sys)
    requires Inv(s) && WriterStep(s, t)
    ensures Inv(t)
  {
    WriterKeepsData(s, t);
    WriterKeepsSync(s, t);
  }

  lemma ReaderKeeps(s: Sys, t: Sys)
    requires Inv(s) && ReaderStep(s, t)
    ensures Inv(t)
  {
    ReaderKeepsData(s, t);
    ReaderKeepsSync(s, t);
  }

  lemma FlusherKeeps(s: Sys, t: Sys)
    requires Inv(s) && FlusherStep(s, t)
    ensures Inv(t)
  {
    FlusherKeepsData(s, t);
  }

  lemma WakerKeeps(s: Sys, t: Sys)
    requires Inv(s) && WakerStep(s, t)
    ensures Inv(t)
  {
    QuietData(s, t);
    WakerKeepsSync(s, t);
  }

  /** Every interleaved step keeps the invariant. */
  lemma NextKeepsInv(s: Sys, t: Sys)
    requires Inv(s) && Next(s, t)
    ensures Inv(t)
  {
    if WriterStep(s, t) {
      WriterKeeps(s, t);
    } else if ReaderStep(s, t) {
      ReaderKeeps(s, t);
    } else if FlusherStep(s, t) {
      FlusherKeeps(s, t);
    } else {
      WakerKeeps(s, t);
    }
  }
}
